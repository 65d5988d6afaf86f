/** Minimization of Automaton objects by Hopcroft's algorithm. */
module Minimization {
  import opened Languages
  import opened Automata
  import BasicOperations
  import opened Equivalence
  import Hopcroft

  // ----- numbering states and letters -----

  ghost function StatesOf(order: seq<State>): set<State> {
    set q | q in order
  }

  ghost predicate IsOrder(s: set<State>, order: seq<State>) {
    && (forall i, j :: 0 <= i < j < |order| ==> order[i] != order[j])
    && (forall q :: q in order <==> q in s)
  }

  method Enumerate(s: set<State>) returns (order: seq<State>, number: map<State, nat>)
    ensures IsOrder(s, order) && number.Keys == s
    ensures forall q :: q in s ==> number[q] < |order| && order[number[q]] == q
  {
    order, number := [], map[];
    var todo := s;
    while todo != {}
      invariant todo <= s && number.Keys == s - todo
      invariant forall q :: q in order <==> q in s - todo
      invariant forall i, j :: 0 <= i < j < |order| ==> order[i] != order[j]
      invariant forall q :: q in number ==> number[q] < |order| && order[number[q]] == q
    {
      var q :| q in todo;
      todo := todo - {q};
      number := number[q := |order|];
      order := order + [q];
    }
  }

  /** t is the transition table of g on the numbered states and the start points. */
  ghost predicate IsTable(g: Graph, order: seq<State>, points: seq<Char>, t: Table) {
    && t.Valid() && t.Size() == |order| && t.letters == |points| && IsPoints(points)
    && (forall i :: 0 <= i < |order| ==> (t.accept[i] <==> order[i] in g.accept))
    && (forall i, x {:trigger t.next[i][x]} :: 0 <= i < |order| && 0 <= x < |points| ==>
         g.Succ(order[i], points[x]) == {order[t.next[i][x]]})
  }

  /** The successors of one state on the start points. */
  method BuildTableRow(g: Graph, order: seq<State>, number: map<State, nat>, points: seq<Char>, q: State)
      returns (row: seq<nat>)
    requires g.Deterministic() && g.Total() && Closed(g, number.Keys) && q in number
    requires forall q :: q in number ==> number[q] < |order| && order[number[q]] == q
    ensures |row| == |points|
    ensures forall y {:trigger row[y]} :: 0 <= y < |points| ==>
        row[y] < |order| && g.Succ(q, points[y]) == {order[row[y]]}
  {
    row := [];
    for x := 0 to |points|
      invariant |row| == x
      invariant forall y {:trigger row[y]} :: 0 <= y < x ==> row[y] < |order| && g.Succ(q, points[y]) == {order[row[y]]}
    {
      assert g.Succ(q, points[x]) != {};
      var p :| p in g.Succ(q, points[x]);
      forall r | r in g.Succ(q, points[x]) ensures r == p {
        DeterministicStep(g, q, points[x], p, r);
      }
      row := row + [number[p]];
    }
  }

  method BuildTable(g: Graph, order: seq<State>, number: map<State, nat>, points: seq<Char>) returns (t: Table)
    requires g.Valid() && g.Deterministic() && g.Total() && IsPoints(points)
    requires Closed(g, number.Keys) && IsOrder(number.Keys, order)
    requires forall q :: q in number ==> number[q] < |order| && order[number[q]] == q
    ensures IsTable(g, order, points, t)
  {
    var next: seq<seq<nat>>, accept: seq<bool> := [], [];
    for i := 0 to |order|
      invariant |next| == |accept| == i
      invariant forall h :: 0 <= h < i ==> (accept[h] <==> order[h] in g.accept)
      invariant forall h :: 0 <= h < i ==> |next[h]| == |points|
      invariant forall h, x {:trigger next[h][x]} :: 0 <= h < i && 0 <= x < |points| ==>
        next[h][x] < |order| && g.Succ(order[h], points[x]) == {order[next[h][x]]}
    {
      var q := order[i];
      assert q in order;
      var row := BuildTableRow(g, order, number, points, q);
      next := next + [row];
      accept := accept + [q in g.accept];
    }
    t := Table(|points|, next, accept);
  }

  lemma TableStep(g: Graph, order: seq<State>, points: seq<Char>, t: Table, i: nat, x: nat, c: Char)
    requires IsTable(g, order, points, t) && PointsFit(g, StatesOf(order), points) && i < |order|
        && InClass(points, x, c)
    ensures g.Succ(order[i], c) == {order[t.next[i][x]]}
  {
    assert order[i] in order;
    FittingSucc(g, StatesOf(order), points, {order[i]}, x, c);
    assert g.SuccSet({order[i]}, c) == g.Succ(order[i], c);
    assert g.SuccSet({order[i]}, points[x]) == g.Succ(order[i], points[x]);
    assert t.next[i][x] < |order|;
  }

  /** u spells w in letters. */
  ghost predicate Spells(points: seq<Char>, u: seq<nat>, w: Word) {
    |u| == |w| && forall i :: 0 <= i < |w| ==> InClass(points, u[i], w[i])
  }

  lemma {:induction false} TableAccepts(g: Graph, order: seq<State>, points: seq<Char>, t: Table, i: nat, u: seq<nat>,
      w: Word)
    requires IsTable(g, order, points, t) && PointsFit(g, StatesOf(order), points) && i < |order|
        && Spells(points, u, w)
    ensures t.Accepts(i, u) <==> g.Accepts(order[i], w)
    decreases |w|
  {
    if w != [] {
      TableStep(g, order, points, t, i, u[0], w[0]);
      TableAccepts(g, order, points, t, t.next[i][u[0]], u[1..], w[1..]);
    }
  }

  lemma {:induction false} Spelling(points: seq<Char>, w: Word) returns (u: seq<nat>)
    requires IsPoints(points)
    ensures Spells(points, u, w)
  {
    if w == [] {
      u := [];
    } else {
      var x := ClassOf(points, w[0]);
      var rest := Spelling(points, w[1..]);
      u := [x] + rest;
    }
  }

  lemma {:induction false} OutsideLetters(t: Table, i: nat, u: seq<nat>)
    requires t.Valid() && i < t.Size() && exists h :: 0 <= h < |u| && u[h] >= t.letters
    ensures !t.Accepts(i, u)
    decreases |u|
  {
    if u[0] < t.letters {
      var h :| 0 <= h < |u| && u[h] >= t.letters;
      assert u[1..][h - 1] == u[h];
      OutsideLetters(t, t.next[i][u[0]], u[1..]);
    }
  }

  /** Words of letters and words of characters tell the same states apart. */
  lemma EquivalentIsSameRight(g: Graph, order: seq<State>, points: seq<Char>, t: Table, i: nat, j: nat)
    requires IsTable(g, order, points, t) && PointsFit(g, StatesOf(order), points) && i < |order| && j < |order|
    ensures t.Equivalent(i, j) <==> g.SameRight(order[i], order[j])
  {
    if t.Equivalent(i, j) {
      forall w ensures g.Accepts(order[i], w) <==> g.Accepts(order[j], w) {
        var u := Spelling(points, w);
        TableAccepts(g, order, points, t, i, u, w);
        TableAccepts(g, order, points, t, j, u, w);
      }
    }
    if g.SameRight(order[i], order[j]) {
      forall u ensures t.Accepts(i, u) == t.Accepts(j, u) {
        if h :| 0 <= h < |u| && u[h] >= t.letters {
          OutsideLetters(t, i, u);
          OutsideLetters(t, j, u);
        } else {
          var w: Word := seq(|u|, h requires 0 <= h < |u| => points[u[h]]);
          TableAccepts(g, order, points, t, i, u, w);
          TableAccepts(g, order, points, t, j, u, w);
        }
      }
    }
  }

  // ----- the quotient -----

  /** h has one state for each block, with the transitions and the acceptance of its representative. */
  ghost predicate IsQuotient(g: Graph, order: seq<State>, number: map<State, nat>, block: seq<nat>, rep: seq<nat>,
      h: Graph) {
    && Closed(g, number.Keys) && IsOrder(number.Keys, order) && |block| == |order|
    && (forall q :: q in number ==> number[q] < |order| && order[number[q]] == q)
    && g.initial in number && h.initial == block[number[g.initial]]
    && (forall n :: 0 <= n < |rep| ==> rep[n] < |order|)
    && (forall i :: 0 <= i < |block| ==> block[i] < |rep| && block[rep[block[i]]] == block[i])
    && (forall n: nat :: n in h.trans <==> n < |rep|) && h.accept <= h.trans.Keys
    && (forall n :: n in h.trans ==> (n in h.accept <==> order[rep[n]] in g.accept))
    && (forall n :: n in h.trans ==> h.trans[n] == RenamedRow(g.Out(order[rep[n]]), number, block))
  }

  function RenamedRow(ts: set<Transition>, number: map<State, nat>, block: seq<nat>): set<Transition> {
    set t | t in ts && t.to in number && number[t.to] < |block| :: Transition(t.min, t.max, block[number[t.to]])
  }

  lemma QuotientSucc(g: Graph, order: seq<State>, number: map<State, nat>, block: seq<nat>, rep: seq<nat>, h: Graph,
      n: State, c: Char, p: State)
    requires IsQuotient(g, order, number, block, rep, h) && n < |rep|
    ensures p in h.Succ(n, c) <==> exists q :: q in g.Succ(order[rep[n]], c) && q in number && block[number[q]] == p
  {
    var q0 := order[rep[n]];
    assert q0 in order;
    assert h.trans[n] == RenamedRow(g.Out(q0), number, block);
    if p in h.Succ(n, c) {
      var u :| u in h.trans[n] && u.Covers(c) && u.to == p;
      var t :| t in g.Out(q0) && t.to in number && u == Transition(t.min, t.max, block[number[t.to]]);
      assert t.Covers(c) && t.to in g.Succ(q0, c);
    }
    if q :| q in g.Succ(q0, c) && q in number && block[number[q]] == p {
      var t :| t in g.Out(q0) && t.Covers(c) && t.to == q;
      assert Transition(t.min, t.max, p) in h.trans[n];
      assert Transition(t.min, t.max, p).Covers(c);
    }
  }

  /** The blocks are the classes of states with the same right language. */
  ghost predicate Classifies(g: Graph, order: seq<State>, block: seq<nat>) {
    && |block| == |order|
    && forall i, j :: 0 <= i < |order| && 0 <= j < |order| ==>
         (block[i] == block[j] <==> g.SameRight(order[i], order[j]))
  }

  lemma SameRightStep(g: Graph, q: State, p: State, c: Char, q': State, p': State)
    requires g.Deterministic() && g.SameRight(q, p) && q' in g.Succ(q, c) && p' in g.Succ(p, c)
    ensures g.SameRight(q', p')
  {
    forall w ensures g.Accepts(q', w) <==> g.Accepts(p', w) {
      assert ([c] + w)[1..] == w;
      assert g.Accepts(q, [c] + w) <==> g.Accepts(p, [c] + w);
      if g.Accepts(q', w) {
        assert g.Accepts(q, [c] + w);
        var r :| r in g.Succ(p, c) && g.Accepts(r, w);
        DeterministicStep(g, p, c, r, p');
      }
      if g.Accepts(p', w) {
        assert g.Accepts(p, [c] + w);
        var r :| r in g.Succ(q, c) && g.Accepts(r, w);
        DeterministicStep(g, q, c, r, q');
      }
    }
  }

  /** The state of a block has the right language of the states in it. */
  lemma {:induction false} QuotientAccepts(g: Graph, order: seq<State>, number: map<State, nat>, block: seq<nat>,
      rep: seq<nat>, h: Graph, i: nat, w: Word)
    requires IsQuotient(g, order, number, block, rep, h) && Classifies(g, order, block)
    requires g.Deterministic() && g.Total() && i < |order|
    ensures h.Accepts(block[i], w) <==> g.Accepts(order[i], w)
    decreases |w|
  {
    var n := block[i];
    assert block[rep[n]] == n;
    var q, r := order[i], order[rep[n]];
    assert q in order && r in order;
    assert g.SameRight(q, r);
    assert g.Accepts(q, w) <==> g.Accepts(r, w);
    if w == [] {
      assert n in h.trans;
    } else {
      var c := w[0];
      assert g.Succ(r, c) != {};
      var r' :| r' in g.Succ(r, c);
      assert r' in number && order[number[r']] == r';
      forall p ensures p in h.Succ(n, c) <==> p == block[number[r']] {
        QuotientSucc(g, order, number, block, rep, h, n, c, p);
        if p in h.Succ(n, c) {
          var q' :| q' in g.Succ(r, c) && q' in number && block[number[q']] == p;
          DeterministicStep(g, r, c, q', r');
        }
      }
      QuotientAccepts(g, order, number, block, rep, h, number[r'], w[1..]);
      forall p | p in g.Succ(r, c) ensures p == r' {
        DeterministicStep(g, r, c, p, r');
      }
    }
  }

  lemma QuotientIsValid(g: Graph, order: seq<State>, number: map<State, nat>, block: seq<nat>, rep: seq<nat>, h: Graph)
    requires IsQuotient(g, order, number, block, rep, h) && g.Valid() && g.Deterministic()
    ensures h.Valid() && h.Deterministic()
  {
    forall n, t | n in h.trans && t in h.trans[n] ensures t.min <= t.max && t.to in h.trans {
      assert h.trans[n] == RenamedRow(g.Out(order[rep[n]]), number, block);
    }
    forall n, t, u | n in h.trans && t in h.trans[n] && u in h.trans[n] && t != u
        ensures t.max < u.min || u.max < t.min
    {
      assert h.trans[n] == RenamedRow(g.Out(order[rep[n]]), number, block);
      assert order[rep[n]] in order;
    }
  }

  /** No two states of the quotient that stand for a block have the same right language. */
  lemma QuotientIsMinimal(g: Graph, order: seq<State>, number: map<State, nat>, block: seq<nat>, rep: seq<nat>,
      h: Graph, k: Graph)
    requires IsQuotient(g, order, number, block, rep, h) && Classifies(g, order, block)
    requires g.Valid() && g.Deterministic() && g.Total()
    requires SameRightOn(h, k) && forall q :: q in k.trans ==> h.Reachable(q)
    requires k.Valid()
    ensures k.Minimal()
  {
    var used := set i | 0 <= i < |block| :: block[i];
    forall n, t | n in used && t in h.trans[n] ensures t.to in used {
      assert h.trans[n] == RenamedRow(g.Out(order[rep[n]]), number, block);
    }
    assert Closed(h, used);
    assert Closed(k, k.trans.Keys);
    forall n, m | k.Reachable(n) && k.Reachable(m) && k.SameRight(n, m) ensures n == m {
      assert n in k.trans && m in k.trans && n in used && m in used;
      var i :| 0 <= i < |block| && block[i] == n;
      var j :| 0 <= j < |block| && block[j] == m;
      forall w ensures g.Accepts(order[i], w) <==> g.Accepts(order[j], w) {
        QuotientAccepts(g, order, number, block, rep, h, i, w);
        QuotientAccepts(g, order, number, block, rep, h, j, w);
        assert k.Accepts(n, w) <==> k.Accepts(m, w);
      }
      assert g.SameRight(order[i], order[j]);
    }
  }

  /** One new state for each block, built from a representative. */
  method BuildQuotient(g: Graph, order: seq<State>, number: map<State, nat>, block: seq<nat>, partition: seq<seq<nat>>,
      k: nat)
      returns (h: Graph, ghost rep: seq<nat>)
    requires Closed(g, number.Keys) && IsOrder(number.Keys, order) && |block| == |order| && g.initial in number
    requires forall q :: q in number ==> number[q] < |order| && order[number[q]] == q
    requires Hopcroft.IsPartition(block, partition) && k <= |block| && forall s :: 0 <= s < |block| ==> block[s] < k
    ensures IsQuotient(g, order, number, block, rep, h) && |rep| == k
  {
    var trans: map<State, set<Transition>>, accept: set<State> := map[], {};
    var reps: seq<nat> := [];
    var initial := 0;
    for n := 0 to k
      invariant |reps| == n && forall m :: 0 <= m < n ==> reps[m] < |order|
      invariant forall i :: 0 <= i < |block| && block[i] < n ==> block[reps[block[i]]] == block[i]
      invariant forall m: nat :: m in trans <==> m < n
      invariant accept <= trans.Keys
      invariant forall m :: m in trans ==> (m in accept <==> order[reps[m]] in g.accept)
      invariant forall m :: m in trans ==> trans[m] == RenamedRow(g.Out(order[reps[m]]), number, block)
      invariant block[number[g.initial]] < n ==> initial == block[number[g.initial]]
    {
      var representative := 0;
      for i := 0 to |partition[n]|
        invariant representative < |order|
        invariant i > 0 ==> block[representative] == n
        invariant number[g.initial] in partition[n][..i] ==> initial == n
        invariant number[g.initial] !in partition[n] ==> block[number[g.initial]] < n ==>
            initial == block[number[g.initial]]
      {
        var q := partition[n][i];
        assert q in partition[n];
        if order[q] == g.initial {
          initial := n;
        }
        representative := q;
      }
      assert partition[n][..|partition[n]|] == partition[n];
      assert number[g.initial] in partition[n] <==> block[number[g.initial]] == n;
      forall i | 0 <= i < |block| && block[i] == n ensures block[representative] == n {
        assert i in partition[n];
      }
      reps := reps + [representative];
      trans := trans[n := RenamedRow(g.Out(order[representative]), number, block)];
      if order[representative] in g.accept {
        accept := accept + {n};
      }
    }
    h := Graph(initial, accept, trans);
    rep := reps;
  }

  // ----- the whole operation -----

  /** A reduced deterministic row that sends every character to the same state is one full interval. */
  lemma FullRow(g: Graph, q: State)
    requires g.Valid() && g.Deterministic() && q in g.trans
    requires forall t :: t in g.trans[q] ==> t.to == q
    requires forall t, u {:trigger t in g.trans[q], u in g.trans[q]} :: t in g.trans[q] && u in g.trans[q] && t != u ==>
        Apart(t, u)
    requires forall c: Char :: Covered(g.trans[q], c)
    ensures g.trans[q] == {Transition(MIN_CHAR, MAX_CHAR, q)}
  {
    assert Covered(g.trans[q], MIN_CHAR);
    var t :| t in g.trans[q] && t.Covers(MIN_CHAR);
    var c: Char := if t.max < MAX_CHAR then t.max + 1 else MAX_CHAR;
    assert Covered(g.trans[q], c);
    var u :| u in g.trans[q] && u.Covers(c);
    assert u == t;
    forall v | v in g.trans[q] ensures v == t {
    }
  }

  /** Some character leads away from the initial state, or nowhere. */
  ghost predicate Spreads(g: Graph) {
    exists c: Char {:trigger g.Succ(g.initial, c)} :: g.Succ(g.initial, c) != {g.initial}
  }

  predicate LoopsOnly(g: Graph) {
    g.Out(g.initial) == {Transition(MIN_CHAR, MAX_CHAR, g.initial)}
  }

  /** A reduced automaton spreads unless it is one full loop. */
  lemma ReducedSpreads(g: Graph)
    requires g.Valid() && g.Deterministic() && g.Reduced() && !LoopsOnly(g)
    ensures Spreads(g)
  {
    var q := g.initial;
    if t :| t in g.trans[q] && t.to != q {
      assert t.Covers(t.min) && t.to in g.Succ(q, t.min);
    } else if c: Char :| !Covered(g.trans[q], c) {
      assert g.Succ(q, c) == {};
    } else {
      forall t, u | t in g.trans[q] && u in g.trans[q] && t != u ensures Apart(t, u) {}
      FullRow(g, q);
    }
  }

  /** When some character leads away, totalizing leaves at least two states. */
  lemma AtLeastTwoStates(g: Graph, h: Graph, sink: State)
    requires g.Valid() && g.Deterministic() && Spreads(g)
    requires h.Valid() && sink !in g.trans && IsTotalized(g.Restrict(h.trans.Keys - {sink}), h, sink)
        && Closed(g, h.trans.Keys - {sink})
    requires h.initial == g.initial
    ensures exists q :: q != h.initial && h.Reachable(q)
  {
    var r := g.Restrict(h.trans.Keys - {sink});
    var q := g.initial;
    assert h.Reachable(q);
    var c: Char :| g.Succ(q, c) != {q};
    TotalizedSucc(r, h, sink, q, c);
    assert r.Succ(q, c) == g.Succ(q, c);
    if g.Succ(q, c) == {} {
      assert sink in h.Succ(q, c);
      var t :| t in h.Out(q) && t.Covers(c) && t.to == sink;
      ReachableStep(h, q, t);
    } else {
      var p :| p in g.Succ(q, c) && p != q;
      var t :| t in h.Out(q) && t.Covers(c) && t.to == p;
      ReachableStep(h, q, t);
    }
  }

  lemma LoopIsMinimal(g: Graph)
    requires g.initial in g.trans && g.trans[g.initial] == {Transition(MIN_CHAR, MAX_CHAR, g.initial)}
    ensures g.Minimal()
  {
    assert Closed(g, {g.initial});
  }

  /** Numbers the states and the letters, refines, and builds one state for each block. */
  method Quotient(a: Automaton) returns (h: Graph, k: nat, ghost order: seq<State>, ghost number: map<State, nat>,
      ghost block: seq<nat>, ghost rep: seq<nat>)
    requires a.Valid() && a.deterministic && a.Snapshot().Total()
    requires exists q :: q != a.initial && a.Snapshot().Reachable(q)
    ensures IsQuotient(a.Snapshot(), order, number, block, rep, h) && Classifies(a.Snapshot(), order, block)
        && |rep| == k
  {
    ghost var g := a.Snapshot();
    var states := a.GetStates();
    var order0, number0 := Enumerate(states);
    order, number := order0, number0;
    var sigma := a.GetStartPoints();
    var t := BuildTable(a.Snapshot(), order0, number0, sigma);
    TwoStates(g, order, states);
    var block0, partition;
    block0, partition, k := Hopcroft.Refine(t);
    block := block0;
    BlocksClassify(g, states, order, sigma, t, block);
    h, rep := BuildQuotient(a.Snapshot(), order0, number0, block0, partition, k);
  }

  /** Makes the new states the states of the automaton and removes what leads nowhere. */
  method Install(a: Automaton, h: Graph, nextId: nat)
    requires h.Valid() && h.Deterministic() && forall q :: q in h.trans ==> q < nextId
    modifies a
    ensures a.Clean() && a.deterministic && a.initial == h.initial
    ensures SameRightOn(h, a.Snapshot()) && forall q :: q in a.trans ==> h.Reachable(q)
  {
    a.initial, a.accept, a.trans, a.nextId, a.deterministic := h.initial, h.accept, h.trans, nextId, true;
    assert a.Snapshot() == h;
    a.RemoveDeadTransitions();
  }

  method MergeEquivalent(a: Automaton)
    requires a.Valid() && a.deterministic && a.Snapshot().Total()
    requires exists q :: q != a.initial && a.Snapshot().Reachable(q)
    modifies a
    ensures a.Clean() && a.deterministic
    ensures SameLanguage(old(a.Snapshot()), a.Snapshot()) && a.Snapshot().Minimal()
  {
    ghost var g := a.Snapshot();
    var h, k;
    ghost var order, number, block, rep;
    h, k, order, number, block, rep := Quotient(a);
    QuotientIsValid(g, order, number, block, rep, h);
    Install(a, h, k);
    QuotientIsMinimal(g, order, number, block, rep, h, a.Snapshot());
    QuotientLanguage(g, order, number, block, rep, h, a.Snapshot());
  }

  /** Combining intervals of reachable states keeps what has been achieved. */
  lemma ReducedQuotient(h: Graph, k: Graph)
    requires h.Valid() && k.Valid() && (forall q :: q in k.trans <==> h.Reachable(q))
        && IsReduction(h.Restrict(k.trans.Keys), k)
    ensures SameLanguage(h, k) && k.Reduced()
    ensures h.NoDeadTransitions() ==> k.NoDeadTransitions()
    ensures h.Minimal() <==> k.Minimal()
  {
    assert Closed(h, h.trans.Keys);
    assert Closed(h, k.trans.Keys) by {
      forall q, t | q in k.trans.Keys && t in h.trans[q] ensures t.to in k.trans.Keys {
        ReachableStep(h, q, t);
      }
    }
    var r := h.Restrict(k.trans.Keys);
    ReductionKeepsLanguages(r, k);
    forall q, w | q in k.trans ensures k.Accepts(q, w) <==> h.Accepts(q, w) {
      RestrictKeepsLanguages(h, k.trans.Keys, q, w);
    }
    assert h.Reachable(h.initial);
    if h.NoDeadTransitions() {
      forall q, t | q in k.trans && t in k.trans[q] ensures k.Live(t.to) {
        assert t.Covers(t.min);
        assert Hits(r.trans[q], t.to, t.min);
        assert h.Live(t.to);
        var w :| h.Accepts(t.to, w);
        assert k.Accepts(t.to, w);
      }
    }
    forall q | h.Reachable(q) ensures k.Reachable(q) {
      ReductionIsReachable(h, k, q);
    }
    assert Closed(k, k.trans.Keys);
  }

  lemma TwoStates(g: Graph, order: seq<State>, states: set<State>)
    requires IsOrder(states, order) && forall q :: q in states <==> g.Reachable(q)
    requires exists q :: q != g.initial && g.Reachable(q)
    ensures |order| >= 2
  {
    var q :| q != g.initial && g.Reachable(q);
    assert g.Reachable(g.initial);
    assert q in order && g.initial in order;
  }

  lemma BlocksClassify(g: Graph, states: set<State>, order: seq<State>, points: seq<Char>, t: Table, block: seq<nat>)
    requires g.Valid() && IsTable(g, order, points, t) && PointsFit(g, g.ReachableStates(), points)
    requires IsOrder(states, order) && forall q :: q in states <==> g.Reachable(q)
    requires states <= g.trans.Keys && |block| == t.Size()
    requires forall i, j :: 0 <= i < |block| && 0 <= j < |block| ==> (block[i] == block[j] <==> t.Equivalent(i, j))
    ensures Classifies(g, order, block)
  {
    assert StatesOf(order) == g.ReachableStates();
    forall i, j | 0 <= i < |order| && 0 <= j < |order|
        ensures block[i] == block[j] <==> g.SameRight(order[i], order[j])
    {
      EquivalentIsSameRight(g, order, points, t, i, j);
    }
  }

  lemma QuotientLanguage(g: Graph, order: seq<State>, number: map<State, nat>, block: seq<nat>, rep: seq<nat>, h: Graph,
      k: Graph)
    requires IsQuotient(g, order, number, block, rep, h) && Classifies(g, order, block)
    requires g.Deterministic() && g.Total() && k.initial == h.initial && k.initial in k.trans && SameRightOn(h, k)
    ensures SameLanguage(g, k)
  {
    forall w ensures g.Language(w) <==> k.Language(w) {
      QuotientAccepts(g, order, number, block, rep, h, number[g.initial], w);
    }
  }

  /** What minimizeHopcroft asks of an automaton that is marked as deterministic, so that it is not determinized first.
      */
  ghost predicate Minimizable(g: Graph) {
    g.Reduced() || LoopsOnly(g) || Spreads(g)
  }

  /** When every character leads back to the initial state, it is alone after totalizing. */
  lemma OnlyOneState(g: Graph, h: Graph, sink: State)
    requires g.Valid() && g.Deterministic() && !Spreads(g)
    requires h.Valid() && sink !in g.trans && IsTotalized(g.Restrict(h.trans.Keys - {sink}), h, sink)
        && Closed(g, h.trans.Keys - {sink})
    requires h.initial == g.initial && h.initial in h.trans.Keys - {sink}
    ensures forall q :: h.Reachable(q) ==> q == h.initial
  {
    var r := g.Restrict(h.trans.Keys - {sink});
    var q := g.initial;
    forall t | t in h.trans[q] ensures t.to == q {
      TotalizedSucc(r, h, sink, q, t.min);
      assert r.Succ(q, t.min) == g.Succ(q, t.min) == {q};
      assert t.Covers(t.min) && t.to in h.Succ(q, t.min);
    }
    assert Closed(h, {q});
  }

  /** Minimizes the automaton, determinizing it first if it is not marked as deterministic. A deterministic automaton
      whose initial state is one full loop is returned as it is, whether it accepts or not. The arrays have one entry
      for each state while two blocks are there from the start, so that a single state ends in an exception: the result
      is then false. That happens exactly when the automaton is marked as deterministic and every character leads back
      to the initial state, by more than one transition. */
  method Minimize(a: Automaton) returns (ok: bool)
    requires a.Valid()
    modifies a
    ensures a.Valid() && a.deterministic && SameLanguage(old(a.Snapshot()), a.Snapshot())
    ensures ok <==> (old(a.deterministic) ==> Minimizable(old(a.Snapshot())))
    ensures ok ==> if old(a.deterministic && LoopsOnly(a.Snapshot())) then a.Snapshot() == old(a.Snapshot())
        else a.Clean()
    ensures ok ==> a.Snapshot().Minimal()
  {
    BasicOperations.Determinize(a);
    ghost var g := a.Snapshot();
    var tr := a.trans[a.initial];
    if tr == {Transition(MIN_CHAR, MAX_CHAR, a.initial)} {
      LoopIsMinimal(g);
      return true;
    }
    a.Totalize();
    ok := MergeAll(a, g, a.nextId - 1);
    if g.Reduced() {
      ReducedSpreads(g);
    }
  }

  /** The arrays of the refinement, if the totalized automaton has states enough for them. */
  method MergeAll(a: Automaton, ghost g: Graph, ghost sink: State) returns (ok: bool)
    requires a.Valid() && a.deterministic && a.Snapshot().Total() && g.Valid() && g.Deterministic()
    requires sink !in g.trans && IsTotalized(g.Restrict(a.trans.Keys - {sink}), a.Snapshot(), sink)
        && Closed(g, a.trans.Keys - {sink})
    requires a.initial == g.initial && a.initial in a.trans.Keys - {sink}
    modifies a
    ensures a.Valid() && a.deterministic && SameLanguage(old(a.Snapshot()), a.Snapshot())
    ensures ok <==> Spreads(g)
    ensures ok ==> a.Clean() && a.Snapshot().Minimal()
  {
    var states := a.GetStates();
    if states == {a.initial} {
      if Spreads(g) {
        AtLeastTwoStates(g, a.Snapshot(), sink);
      }
      return false;
    }
    assert exists q :: q != a.initial && a.Snapshot().Reachable(q) by {
      var q :| q in states && q != a.initial;
    }
    if !Spreads(g) {
      OnlyOneState(g, a.Snapshot(), sink);
    }
    MergeEquivalent(a);
    ok := true;
  }

  /** Minimizes an automaton that meets the representation invariant, or is not marked as deterministic. */
  method MinimizeHopcroft(a: Automaton)
    requires a.Valid() && (a.deterministic ==> Minimizable(a.Snapshot()))
    modifies a
    ensures a.Valid() && a.deterministic
    ensures if old(a.deterministic && LoopsOnly(a.Snapshot())) then a.Snapshot() == old(a.Snapshot()) else a.Clean()
    ensures SameLanguage(old(a.Snapshot()), a.Snapshot())
    ensures a.Snapshot().Minimal()
  {
    var ok := Minimize(a);
    assert ok;
  }
}
