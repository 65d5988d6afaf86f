/** The meaning of the learner's constraints, group by group, and their models. */
module Constraints {
  import opened Languages
  import opened Equivalence
  import opened PrefixTrees
  import opened Encoding

  /** f: state q accepts. d: p goes by a to q. x: prefix u ends in q. y, z: DFA state p and automaton state s
      are reached together by some word (of length l) of counterexample i. */
  datatype Var =
    | F(q: nat)
    | D(p: nat, a: nat, q: nat)
    | X(u: nat, q: nat)
    | Y(i: nat, p: nat, s: State)
    | Z(i: nat, p: nat, s: State, l: nat)

  type Assignment = Var -> bool

  ghost predicate HasSuccessor(m: Assignment, n: nat, p: nat, a: nat) {
    exists q: nat :: q < n && m(D(p, a, q))
  }

  ghost predicate OneSuccessor(m: Assignment, n: nat, p: nat, a: nat) {
    forall q: nat, r: nat :: q < r < n ==> !(m(D(p, a, q)) && m(D(p, a, r)))
  }

  ghost predicate DRow(m: Assignment, n: nat, letters: nat, p: nat) {
    forall a: nat {:trigger HasSuccessor(m, n, p, a)} {:trigger OneSuccessor(m, n, p, a)} ::
      a < letters ==> HasSuccessor(m, n, p, a) && OneSuccessor(m, n, p, a)
  }

  /** d is a total function. */
  ghost predicate DHolds(m: Assignment, n: nat, letters: nat) {
    forall p: nat {:trigger DRow(m, n, letters, p)} :: p < n ==> DRow(m, n, letters, p)
  }

  ghost predicate XRoot(m: Assignment, n: nat) {
    m(X(0, 0)) && forall q: nat :: 1 <= q < n ==> !m(X(0, q))
  }

  ghost predicate OneState(m: Assignment, n: nat, u: nat) {
    forall q: nat, r: nat :: q < r < n ==> !(m(X(u, q)) && m(X(u, r)))
  }

  /** Where the prefix of u goes on by a, its child v follows. */
  ghost predicate XStep(m: Assignment, n: nat, u: nat, a: nat, v: nat) {
    forall p: nat, q: nat :: p < n && q < n && m(X(u, p)) && m(D(p, a, q)) ==> m(X(v, q))
  }

  ghost predicate XAccept(m: Assignment, n: nat, u: nat, accept: int) {
    && (accept > 0 ==> forall q: nat :: q < n && m(X(u, q)) ==> m(F(q)))
    && (accept < 0 ==> forall q: nat :: q < n && m(X(u, q)) ==> !m(F(q)))
  }

  /** At most one state, the transitions to the children, and the acceptance of the prefix of node u. */
  ghost predicate XNode(m: Assignment, n: nat, letters: nat, nodes: seq<Node>, u: nat)
    requires u < |nodes| && |nodes[u].children| == letters
  {
    && OneState(m, n, u)
    && (forall a: nat {:trigger nodes[u].children[a]} :: a < letters && nodes[u].children[a].Child? ==>
         XStep(m, n, u, a, nodes[u].children[a].id))
    && XAccept(m, n, u, nodes[u].accept)
  }

  ghost predicate XHolds(m: Assignment, n: nat, letters: nat, nodes: seq<Node>)
    requires forall u :: 0 <= u < |nodes| ==> |nodes[u].children| == letters
  {
    XRoot(m, n) && forall u {:trigger nodes[u]} :: 0 <= u < |nodes| ==> XNode(m, n, letters, nodes, u)
  }

  /** Some accepting state is reached by the prefix of node u. */
  ghost predicate Antecedent(m: Assignment, n: nat, u: nat) {
    exists q: nat :: q < n && m(X(u, q)) && m(F(q))
  }

  type Arrow = (State, Transition)

  /** The transitions that the learner reads, with their sources. */
  ghost function Arrows(g: Graph): set<Arrow> {
    set s, t | s in g.ReachableStates() && t in g.Out(s) :: (s, t)
  }

  ghost predicate YStep(m: Assignment, n: nat, alphabet: seq<Char>, i: nat, e: Arrow)
    requires e.1.min in alphabet
  {
    forall p: nat, q: nat :: p < n && q < n && m(Y(i, p, e.0)) && m(D(p, Index(alphabet, e.1.min), q)) ==>
        m(Y(i, q, e.1.to))
  }

  ghost predicate YSteps(m: Assignment, n: nat, alphabet: seq<Char>, i: nat, g: Graph)
    requires ReadableOver(alphabet, g)
  {
    forall e :: e in Arrows(g) ==> YStep(m, n, alphabet, i, e)
  }

  ghost predicate YAccept(m: Assignment, n: nat, i: nat, accepts: set<State>) {
    forall q: nat, s :: q < n && s in accepts && m(Y(i, q, s)) ==> m(F(q))
  }

  ghost predicate YHolds(m: Assignment, n: nat, alphabet: seq<Char>, i: nat, g: Graph, u: nat)
    requires ReadableOver(alphabet, g)
  {
    && m(Y(i, 0, g.initial))
    && YSteps(m, n, alphabet, i, g)
    && (Antecedent(m, n, u) ==> YAccept(m, n, i, g.ReachableStates() * g.accept))
  }

  ghost predicate ZStep(m: Assignment, n: nat, alphabet: seq<Char>, i: nat, e: Arrow, bound: nat)
    requires e.1.min in alphabet
  {
    forall p: nat, q: nat, l: nat {:trigger m(Z(i, p, e.0, l)), m(D(p, Index(alphabet, e.1.min), q))} ::
      p < n && q < n && l + 1 < bound && m(Z(i, p, e.0, l)) && m(D(p, Index(alphabet, e.1.min), q)) ==>
        m(Z(i, q, e.1.to, l + 1))
  }

  ghost predicate ZSteps(m: Assignment, n: nat, alphabet: seq<Char>, i: nat, g: Graph, bound: nat)
    requires ReadableOver(alphabet, g)
  {
    forall e :: e in Arrows(g) ==> ZStep(m, n, alphabet, i, e, bound)
  }

  /** The arrow e explains that its target is reached together with q after l + 1 letters. */
  ghost predicate ExplainedBy(m: Assignment, n: nat, alphabet: seq<Char>, i: nat, e: Arrow, q: nat, l: nat)
    requires e.1.min in alphabet
  {
    exists p: nat :: p < n && m(D(p, Index(alphabet, e.1.min), q)) && m(Z(i, p, e.0, l))
  }

  ghost predicate ZExplained(m: Assignment, n: nat, alphabet: seq<Char>, i: nat, arrows: set<Arrow>, q: nat, s: State,
      l: nat)
    requires forall e :: e in arrows ==> e.1.min in alphabet
  {
    exists e :: e in arrows && e.1.to == s && ExplainedBy(m, n, alphabet, i, e, q, l)
  }

  ghost predicate ZBackStep(m: Assignment, n: nat, alphabet: seq<Char>, i: nat, arrows: set<Arrow>, q: nat, s: State,
      l: nat)
    requires forall e :: e in arrows ==> e.1.min in alphabet
  {
    m(Z(i, q, s, l + 1)) ==> ZExplained(m, n, alphabet, i, arrows, q, s, l)
  }

  ghost predicate ZBackSteps(m: Assignment, n: nat, alphabet: seq<Char>, i: nat, g: Graph, bound: nat)
    requires ReadableOver(alphabet, g)
  {
    forall s, q: nat, l: nat {:trigger ZBackStep(m, n, alphabet, i, Arrows(g), q, s, l)} ::
      s in g.ReachableStates() && q < n && l + 1 < bound ==> ZBackStep(m, n, alphabet, i, Arrows(g), q, s, l)
  }

  ghost predicate ZStart(m: Assignment, n: nat, i: nat, g: Graph) {
    && m(Z(i, 0, g.initial, 0))
    && forall s, q: nat :: s in g.ReachableStates() && q < n && !(s == g.initial && q == 0) ==> !m(Z(i, q, s, 0))
  }

  ghost predicate ZFound(m: Assignment, n: nat, i: nat, accepts: set<State>, bound: nat) {
    exists q: nat, s, l: nat :: q < n && s in accepts && l < bound && m(Z(i, q, s, l)) && m(F(q))
  }

  ghost predicate ZHolds(m: Assignment, n: nat, alphabet: seq<Char>, i: nat, g: Graph, u: nat, bound: nat)
    requires ReadableOver(alphabet, g)
  {
    && ZStart(m, n, i, g) && ZSteps(m, n, alphabet, i, g, bound) && ZBackSteps(m, n, alphabet, i, g, bound)
    && (Antecedent(m, n, u) ==> ZFound(m, n, i, g.ReachableStates() * g.accept, bound))
  }

  /** The prefix tree built from a sample: everything is stored, positive words first. */
  ghost predicate TreeOf(alphabet: seq<Char>, s: SampleData, nodes: seq<Node>, index: map<Letters, nat>) {
    && IsTree(|alphabet|, nodes, index) && SampleOver(alphabet, s)
    && (forall w :: w in s.pos ==> Encode(alphabet, w) in index)
    && (forall w :: w in s.neg ==> Encode(alphabet, w) in index)
    && (forall c :: c in s.uni ==> Encode(alphabet, c.u) in index)
    && (forall c :: c in s.ex ==> Encode(alphabet, c.u) in index)
    && (forall u :: AcceptIn(nodes, index, u) ==
          if exists w :: w in s.pos && Encode(alphabet, w) == u then 1
          else if exists w :: w in s.neg && Encode(alphabet, w) == u then -1 else 0)
  }

  /** All constraints for automata with n states. */
  ghost predicate Holding(m: Assignment, n: nat, alphabet: seq<Char>, s: SampleData, nodes: seq<Node>,
      index: map<Letters, nat>)
    requires TreeOf(alphabet, s, nodes, index)
  {
    && DHolds(m, n, |alphabet|) && XHolds(m, n, |alphabet|, nodes)
    && (forall i :: 0 <= i < |s.uni| ==> UniHolds(m, n, alphabet, index, i, s.uni[i]))
    && (forall i :: 0 <= i < |s.ex| ==> ExHolds(m, n, alphabet, index, i, s.ex[i]))
  }

  ghost predicate UniHolds(m: Assignment, n: nat, alphabet: seq<Char>, index: map<Letters, nat>, i: nat,
      c: CounterExample) {
    && Over(alphabet, c.u) && Encode(alphabet, c.u) in index && ReadableOver(alphabet, c.a)
    && YHolds(m, n, alphabet, i, c.a, index[Encode(alphabet, c.u)])
  }

  ghost predicate ExHolds(m: Assignment, n: nat, alphabet: seq<Char>, index: map<Letters, nat>, i: nat,
      c: CounterExample) {
    && Over(alphabet, c.u) && Encode(alphabet, c.u) in index && ReadableOver(alphabet, c.a)
    && ZHolds(m, n, alphabet, i, c.a, index[Encode(alphabet, c.u)], Lengths(n, c.a))
  }

  /** The number of word lengths the z variables of a counterexample distinguish (l_max). */
  ghost function Lengths(n: nat, g: Graph): nat {
    if n * |g.ReachableStates()| == 0 then 0 else n * |g.ReachableStates()| - 1
  }

  // ----- soundness: a model is an automaton that agrees -----

  /** The automaton a model describes. */
  ghost predicate Describes(m: Assignment, n: nat, letters: nat, t: Table) {
    && IsDfa(t, n, letters)
    && (forall q :: 0 <= q < n ==> (t.accept[q] <==> m(F(q))))
    && (forall p, a, q: nat {:trigger m(D(p, a, q))} :: 0 <= p < n && 0 <= a < letters && q < n ==>
         (m(D(p, a, q)) <==> t.next[p][a] == q))
  }

  lemma ModelDescribes(m: Assignment, n: nat, letters: nat) returns (t: Table)
    requires n > 0 && DHolds(m, n, letters)
    ensures Describes(m, n, letters, t)
  {
    t := Table(letters,
           seq(n, p requires 0 <= p < n => seq(letters, a requires 0 <= a < letters => Chosen(m, n, letters, p, a))),
           seq(n, q requires 0 <= q < n => m(F(q))));
  }

  ghost function Chosen(m: Assignment, n: nat, letters: nat, p: nat, a: nat): (q: nat)
    requires DHolds(m, n, letters) && p < n && a < letters
    ensures q < n && m(D(p, a, q)) && forall r :: 0 <= r < n && m(D(p, a, r)) ==> r == q
  {
    assert DRow(m, n, letters, p);
    assert HasSuccessor(m, n, p, a) && OneSuccessor(m, n, p, a);
    var q: nat :| q < n && m(D(p, a, q));
    q
  }

  /** The x variables of a model follow the runs of its automaton. */
  lemma {:induction false} XFollowsRun(m: Assignment, n: nat, t: Table, nodes: seq<Node>, index: map<Letters, nat>,
      w: Letters)
    requires IsTree(t.letters, nodes, index) && Describes(m, n, t.letters, t) && XHolds(m, n, t.letters, nodes)
        && w in index
    ensures OverLetters(w, t.letters) && index[w] < |nodes|
    ensures m(X(index[w], Run(t, 0, w)))
    ensures forall q: nat :: q < n && m(X(index[w], q)) ==> q == Run(t, 0, w)
    decreases |w|
  {
    assert StoredAt(t.letters, nodes, index, w);
    var u := index[w];
    if w == [] {
    } else {
      var v, a := w[..|w| - 1], w[|w| - 1];
      assert v + [a] == w;
      XFollowsRun(m, n, t, nodes, index, v);
      var p := Run(t, 0, v);
      RunSnoc(t, 0, v, a);
      assert StoredAt(t.letters, nodes, index, v);
      assert nodes[index[v]].children[a] == ChildFor(index, v, a) == Child(u);
      assert XNode(m, n, t.letters, nodes, index[v]);
      assert m(D(p, a, t.next[p][a]));
    }
    assert XNode(m, n, t.letters, nodes, u);
  }

  lemma AntecedentIsAcceptance(m: Assignment, n: nat, t: Table, nodes: seq<Node>, index: map<Letters, nat>, w: Letters)
    requires IsTree(t.letters, nodes, index) && Describes(m, n, t.letters, t) && XHolds(m, n, t.letters, nodes)
        && w in index
    ensures OverLetters(w, t.letters)
    ensures Antecedent(m, n, index[w]) <==> t.Accepts(0, w)
  {
    XFollowsRun(m, n, t, nodes, index, w);
    AcceptsByRun(t, 0, w);
  }

  /** The y variables of a model cover all common runs. */
  /** One step of a run. */
  lemma YCoversStep(m: Assignment, n: nat, alphabet: seq<Char>, i: nat, g: Graph, t: Table, p: nat, s: State, c: Char,
      s': State)
    requires ReadableOver(alphabet, g) && Describes(m, n, |alphabet|, t) && YSteps(m, n, alphabet, i, g)
    requires p < n && g.Reachable(s) && s in g.trans && m(Y(i, p, s)) && s' in Read(g).Succ(s, c)
    ensures c in alphabet && g.Reachable(s') && s' in g.trans && m(Y(i, t.next[p][Index(alphabet, c)], s'))
  {
    var e := ReadStep(alphabet, g, s, c, s');
    var q := t.next[p][Index(alphabet, c)];
    assert m(D(p, Index(alphabet, e.min), q));
    assert (s, e) in Arrows(g);
    assert YStep(m, n, alphabet, i, (s, e));
  }

  lemma {:induction false} YCoversRuns(m: Assignment, n: nat, alphabet: seq<Char>, i: nat, g: Graph, t: Table, p: nat,
      s: State, v: Word, r: State)
    requires ReadableOver(alphabet, g) && Describes(m, n, |alphabet|, t) && YSteps(m, n, alphabet, i, g)
    requires p < n && g.Reachable(s) && s in g.trans && m(Y(i, p, s)) && Read(g).Reaches(s, v, r)
    ensures Over(alphabet, v) && r in g.ReachableStates() && m(Y(i, Run(t, p, Encode(alphabet, v)), r))
    decreases |v|
  {
    if v == [] {
      assert Encode(alphabet, v) == [];
    } else {
      var s' :| s' in Read(g).Succ(s, v[0]) && Read(g).Reaches(s', v[1..], r);
      YCoversStep(m, n, alphabet, i, g, t, p, s, v[0], s');
      var q := t.next[p][Index(alphabet, v[0])];
      YCoversRuns(m, n, alphabet, i, g, t, q, s', v[1..], r);
      assert v == [v[0]] + v[1..];
      assert Encode(alphabet, v)[1..] == Encode(alphabet, v[1..]);
    }
  }

  lemma ReadStep(alphabet: seq<Char>, g: Graph, s: State, c: Char, r: State) returns (e: Transition)
    requires ReadableOver(alphabet, g) && g.Reachable(s) && s in g.trans && r in Read(g).Succ(s, c)
    ensures e in g.trans[s] && e.min == c && e.to == r && c in alphabet && g.Reachable(r) && r in g.trans
  {
    var t :| t in Read(g).Out(s) && t.Covers(c) && t.to == r;
    e :| e in g.trans[s] && t == Transition(e.min, e.min, e.to);
    ReachableStep(g, s, e);
  }

  /** The word v takes the automaton t to p and the counterexample's automaton to s. */
  ghost predicate Together(alphabet: seq<Char>, t: Table, g: Graph, p: nat, s: State, v: Word)
    requires t.Valid() && t.Size() > 0 && t.letters == |alphabet|
  {
    Over(alphabet, v) && Read(g).Reaches(g.initial, v, s) && Run(t, 0, Encode(alphabet, v)) == p
  }

  lemma TogetherAtStart(alphabet: seq<Char>, t: Table, g: Graph)
    requires t.Valid() && t.Size() > 0 && t.letters == |alphabet|
    ensures Together(alphabet, t, g, 0, g.initial, [])
  {
    assert Encode(alphabet, []) == [];
  }

  lemma TogetherStep(alphabet: seq<Char>, t: Table, g: Graph, p: nat, r: State, e: Transition, v: Word)
      returns (v': Word)
    requires t.Valid() && t.Size() > 0 && t.letters == |alphabet| && ReadableOver(alphabet, g)
    requires Together(alphabet, t, g, p, r, v) && r in g.trans && g.Reachable(r) && e in g.trans[r]
    ensures e.min in alphabet && p < t.Size() && v' == v + [e.min]
    ensures Together(alphabet, t, g, t.next[p][Index(alphabet, e.min)], e.to, v')
  {
    v' := v + [e.min];
    assert Transition(e.min, e.min, e.to) in Read(g).trans[r];
    assert e.to in Read(g).Succ(r, e.min);
    Farther(Read(g), g.initial, v, r, e.min, e.to);
    assert Encode(alphabet, v') == Encode(alphabet, v) + [Index(alphabet, e.min)];
    RunSnoc(t, 0, Encode(alphabet, v), Index(alphabet, e.min));
  }

  /** Every set z variable of a model is witnessed by a word. */
  lemma {:induction false} ZHasWord(m: Assignment, n: nat, alphabet: seq<Char>, i: nat, g: Graph, bound: nat, t: Table,
      q: nat, s: State, l: nat) returns (v: Word)
    requires ReadableOver(alphabet, g) && IsAlphabet(alphabet) && Describes(m, n, |alphabet|, t)
    requires ZStart(m, n, i, g) && ZBackSteps(m, n, alphabet, i, g, bound)
    requires q < n && s in g.ReachableStates() && l < bound && m(Z(i, q, s, l))
    ensures |v| == l && Together(alphabet, t, g, q, s, v)
    decreases l
  {
    if l == 0 {
      v := [];
      TogetherAtStart(alphabet, t, g);
    } else {
      assert ZBackStep(m, n, alphabet, i, Arrows(g), q, s, l - 1);
      var e :| e in Arrows(g) && e.1.to == s && ExplainedBy(m, n, alphabet, i, e, q, l - 1);
      var p: nat :| p < n && m(D(p, Index(alphabet, e.1.min), q)) && m(Z(i, p, e.0, l - 1));
      var u := ZHasWord(m, n, alphabet, i, g, bound, t, p, e.0, l - 1);
      v := TogetherStep(alphabet, t, g, p, e.0, e.1, u);
    }
  }

  /** Encoding soundness: the automaton of a model accepts the positive words, rejects the other negative ones, and
      keeps both kinds of implications. */
  lemma ModelAgrees(m: Assignment, n: nat, alphabet: seq<Char>, s: SampleData, nodes: seq<Node>, index: map<Letters,
      nat>, t: Table)
    requires n > 0 && IsAlphabet(alphabet) && TreeOf(alphabet, s, nodes, index)
        && Holding(m, n, alphabet, s, nodes, index)
    requires Describes(m, n, |alphabet|, t)
    ensures AgreesWithin(alphabet, t, s)
  {
    forall w | w in s.pos ensures Holds(alphabet, t, w) {
      PositiveIsAccepted(m, n, alphabet, s, nodes, index, t, w);
    }
    forall w | w in s.neg && w !in s.pos ensures !Holds(alphabet, t, w) {
      NegativeIsRejected(m, n, alphabet, s, nodes, index, t, w);
    }
    forall c, v | c in s.uni && Holds(alphabet, t, c.u) && Read(c.a).Language(v) ensures Holds(alphabet, t, v) {
      var i :| 0 <= i < |s.uni| && s.uni[i] == c;
      UniversalIsKept(m, n, alphabet, nodes, index, t, i, c, v);
    }
    forall c | c in s.ex && Holds(alphabet, t, c.u) ensures Witnessed(alphabet, t, Read(c.a), ZBound(n, c.a)) {
      var i :| 0 <= i < |s.ex| && s.ex[i] == c;
      ExistentialIsKept(m, n, alphabet, nodes, index, t, i, c);
    }
  }

  lemma EncodeIsInjective(alphabet: seq<Char>, w: Word, v: Word)
    requires Over(alphabet, w) && Over(alphabet, v) && Encode(alphabet, w) == Encode(alphabet, v)
    ensures w == v
  {
    assert |w| == |v|;
    forall i | 0 <= i < |w| ensures w[i] == v[i] {
      assert Encode(alphabet, w)[i] == Encode(alphabet, v)[i];
    }
  }

  lemma PositiveIsAccepted(m: Assignment, n: nat, alphabet: seq<Char>, s: SampleData, nodes: seq<Node>,
      index: map<Letters, nat>, t: Table, w: Word)
    requires TreeOf(alphabet, s, nodes, index) && Describes(m, n, |alphabet|, t) && XHolds(m, n, |alphabet|, nodes)
        && w in s.pos
    ensures Holds(alphabet, t, w)
  {
    var u := Encode(alphabet, w);
    XFollowsRun(m, n, t, nodes, index, u);
    AcceptsByRun(t, 0, u);
    assert AcceptIn(nodes, index, u) == 1;
    assert XNode(m, n, |alphabet|, nodes, index[u]);
  }

  lemma NegativeIsRejected(m: Assignment, n: nat, alphabet: seq<Char>, s: SampleData, nodes: seq<Node>,
      index: map<Letters, nat>, t: Table, w: Word)
    requires TreeOf(alphabet, s, nodes, index) && Describes(m, n, |alphabet|, t) && XHolds(m, n, |alphabet|, nodes)
    requires w in s.neg && w !in s.pos
    ensures !Holds(alphabet, t, w)
  {
    var u := Encode(alphabet, w);
    forall v | v in s.pos ensures Encode(alphabet, v) != u {
      if Encode(alphabet, v) == u {
        EncodeIsInjective(alphabet, v, w);
      }
    }
    XFollowsRun(m, n, t, nodes, index, u);
    AcceptsByRun(t, 0, u);
    assert AcceptIn(nodes, index, u) == -1;
    assert XNode(m, n, |alphabet|, nodes, index[u]);
  }

  lemma UniversalIsKept(m: Assignment, n: nat, alphabet: seq<Char>, nodes: seq<Node>, index: map<Letters, nat>,
      t: Table, i: nat, c: CounterExample, v: Word)
    requires IsTree(|alphabet|, nodes, index) && Describes(m, n, |alphabet|, t) && XHolds(m, n, |alphabet|, nodes)
    requires UniHolds(m, n, alphabet, index, i, c) && Holds(alphabet, t, c.u) && Read(c.a).Language(v)
    ensures Holds(alphabet, t, v)
  {
    AntecedentIsAcceptance(m, n, t, nodes, index, Encode(alphabet, c.u));
    var r := EndOfRun(Read(c.a), c.a.initial, v);
    YCoversRuns(m, n, alphabet, i, c.a, t, 0, c.a.initial, v, r);
    AcceptsByRun(t, 0, Encode(alphabet, v));
  }

  lemma ExistentialIsKept(m: Assignment, n: nat, alphabet: seq<Char>, nodes: seq<Node>, index: map<Letters, nat>,
      t: Table, i: nat, c: CounterExample)
    requires IsTree(|alphabet|, nodes, index) && IsAlphabet(alphabet) && Describes(m, n, |alphabet|, t)
        && XHolds(m, n, |alphabet|, nodes)
    requires ExHolds(m, n, alphabet, index, i, c) && Holds(alphabet, t, c.u)
    ensures Witnessed(alphabet, t, Read(c.a), ZBound(n, c.a))
  {
    AntecedentIsAcceptance(m, n, t, nodes, index, Encode(alphabet, c.u));
    var bound := Lengths(n, c.a);
    assert ZFound(m, n, i, c.a.ReachableStates() * c.a.accept, bound);
    var q: nat, r, l: nat :| q < n && r in c.a.ReachableStates() * c.a.accept && l < bound && m(Z(i, q, r, l))
      && m(F(q));
    var v := ZHasWord(m, n, alphabet, i, c.a, bound, t, q, r, l);
    RunAccepts(Read(c.a), c.a.initial, v, r);
    AcceptsByRun(t, 0, Encode(alphabet, v));
    assert Holds(alphabet, t, v);
  }

  // ----- completeness: an automaton that agrees is a model -----

  /** What each variable means for the automaton t. */
  ghost predicate Meaning(alphabet: seq<Char>, t: Table, s: SampleData, nodes: seq<Node>, x: Var)
    requires t.Valid() && t.Size() > 0 && t.letters == |alphabet|
  {
    match x
    case F(q) => q < t.Size() && t.accept[q]
    case D(p, a, q) => p < t.Size() && a < t.letters && t.next[p][a] == q
    case X(u, q) => u < |nodes| && OverLetters(nodes[u].word, t.letters) && Run(t, 0, nodes[u].word) == q
    case Y(i, p, r) => i < |s.uni| && exists v :: Together(alphabet, t, s.uni[i].a, p, r, v)
    case Z(i, p, r, l) => i < |s.ex| && exists v :: |v| == l && Together(alphabet, t, s.ex[i].a, p, r, v)
  }

  ghost predicate IsMeaning(m: Assignment, alphabet: seq<Char>, t: Table, s: SampleData, nodes: seq<Node>)
    requires t.Valid() && t.Size() > 0 && t.letters == |alphabet|
  {
    forall x :: m(x) <==> Meaning(alphabet, t, s, nodes, x)
  }

  lemma MeaningDHolds(m: Assignment, alphabet: seq<Char>, t: Table, s: SampleData, nodes: seq<Node>)
    requires t.Valid() && t.Size() > 0 && t.letters == |alphabet| && IsMeaning(m, alphabet, t, s, nodes)
    ensures DHolds(m, t.Size(), t.letters)
  {
    forall p: nat, a: nat | p < t.Size() && a < t.letters ensures HasSuccessor(m, t.Size(), p, a) {
      assert m(D(p, a, t.next[p][a]));
    }
  }

  lemma MeaningXHolds(m: Assignment, alphabet: seq<Char>, t: Table, s: SampleData, nodes: seq<Node>, index: map<Letters,
      nat>)
    requires t.Valid() && t.Size() > 0 && t.letters == |alphabet| && IsMeaning(m, alphabet, t, s, nodes)
    requires TreeOf(alphabet, s, nodes, index) && AgreesWords(alphabet, t, s)
    ensures XHolds(m, t.Size(), t.letters, nodes)
  {
    assert StoredAt(t.letters, nodes, index, []);
    assert nodes[0].word == [];
    forall u | 0 <= u < |nodes| ensures XNode(m, t.Size(), t.letters, nodes, u) {
      MeaningXNode(m, alphabet, t, s, nodes, index, u);
    }
  }

  lemma MeaningXNode(m: Assignment, alphabet: seq<Char>, t: Table, s: SampleData, nodes: seq<Node>, index: map<Letters,
      nat>, u: nat)
    requires t.Valid() && t.Size() > 0 && t.letters == |alphabet| && IsMeaning(m, alphabet, t, s, nodes)
    requires TreeOf(alphabet, s, nodes, index) && AgreesWords(alphabet, t, s) && u < |nodes|
    ensures XNode(m, t.Size(), t.letters, nodes, u)
  {
    var w := nodes[u].word;
    assert StoredAt(t.letters, nodes, index, w);
    forall a, p, q | 0 <= a < t.letters && nodes[u].children[a].Child? && 0 <= p < t.Size() && 0 <= q < t.Size()
        && m(X(u, p)) && m(D(p, a, q))
      ensures m(X(nodes[u].children[a].id, q))
    {
      assert nodes[u].children[a] == ChildFor(index, w, a);
      assert StoredAt(t.letters, nodes, index, w + [a]);
      RunSnoc(t, 0, w, a);
    }
    AcceptsByRun(t, 0, w);
    assert AcceptIn(nodes, index, w) == nodes[u].accept;
  }

  lemma MeaningYSteps(m: Assignment, alphabet: seq<Char>, t: Table, s: SampleData, nodes: seq<Node>, i: nat)
    requires t.Valid() && t.Size() > 0 && t.letters == |alphabet| && IsMeaning(m, alphabet, t, s, nodes)
    requires i < |s.uni| && ReadableOver(alphabet, s.uni[i].a)
    ensures m(Y(i, 0, s.uni[i].a.initial)) && YSteps(m, t.Size(), alphabet, i, s.uni[i].a)
  {
    var g := s.uni[i].a;
    TogetherAtStart(alphabet, t, g);
    assert m(Y(i, 0, g.initial));
    forall e, p: nat, q: nat | e in Arrows(g) && p < t.Size() && q < t.Size() && m(Y(i, p, e.0))
        && m(D(p, Index(alphabet, e.1.min), q))
      ensures m(Y(i, q, e.1.to))
    {
      var v :| Together(alphabet, t, g, p, e.0, v);
      var v' := TogetherStep(alphabet, t, g, p, e.0, e.1, v);
    }
  }

  lemma TogetherAccepts(alphabet: seq<Char>, t: Table, g: Graph, q: nat, r: State, v: Word)
    requires t.Valid() && t.Size() > 0 && t.letters == |alphabet| && Together(alphabet, t, g, q, r, v) && r in g.accept
    ensures q < t.Size() && Read(g).Language(v) && (Holds(alphabet, t, v) <==> t.accept[q])
  {
    RunAccepts(Read(g), g.initial, v, r);
    AcceptsByRun(t, 0, Encode(alphabet, v));
  }

  lemma AcceptedTogether(alphabet: seq<Char>, t: Table, g: Graph, v: Word) returns (q: nat, r: State)
    requires t.Valid() && t.Size() > 0 && t.letters == |alphabet| && ReadableOver(alphabet, g)
    requires Read(g).Language(v) && Holds(alphabet, t, v)
    ensures Together(alphabet, t, g, q, r, v) && r in g.ReachableStates() * g.accept && q < t.Size() && t.accept[q]
  {
    r := EndOfRun(Read(g), g.initial, v);
    ReadReachable(g, v, r);
    q := Run(t, 0, Encode(alphabet, v));
    AcceptsByRun(t, 0, Encode(alphabet, v));
  }

  lemma MeaningUniHolds(m: Assignment, alphabet: seq<Char>, t: Table, s: SampleData, nodes: seq<Node>,
      index: map<Letters, nat>, i: nat)
    requires t.Valid() && t.Size() > 0 && t.letters == |alphabet| && IsMeaning(m, alphabet, t, s, nodes)
    requires TreeOf(alphabet, s, nodes, index) && AgreesWords(alphabet, t, s) && XHolds(m, t.Size(), t.letters, nodes)
        && i < |s.uni|
    requires Describes(m, t.Size(), t.letters, t)
    ensures UniHolds(m, t.Size(), alphabet, index, i, s.uni[i])
  {
    var c := s.uni[i];
    assert c in s.uni;
    MeaningYSteps(m, alphabet, t, s, nodes, i);
    AntecedentIsAcceptance(m, t.Size(), t, nodes, index, Encode(alphabet, c.u));
    if Antecedent(m, t.Size(), index[Encode(alphabet, c.u)]) {
      forall q: nat, r | q < t.Size() && r in c.a.ReachableStates() * c.a.accept && m(Y(i, q, r)) ensures m(F(q)) {
        var v :| Together(alphabet, t, c.a, q, r, v);
        TogetherAccepts(alphabet, t, c.a, q, r, v);
      }
    }
  }

  lemma MeaningZStart(m: Assignment, alphabet: seq<Char>, t: Table, s: SampleData, nodes: seq<Node>, i: nat)
    requires t.Valid() && t.Size() > 0 && t.letters == |alphabet| && IsMeaning(m, alphabet, t, s, nodes) && i < |s.ex|
    ensures ZStart(m, t.Size(), i, s.ex[i].a)
  {
    var g := s.ex[i].a;
    TogetherAtStart(alphabet, t, g);
    assert Meaning(alphabet, t, s, nodes, Z(i, 0, g.initial, 0));
    forall r, q: nat | r in g.ReachableStates() && q < t.Size() && m(Z(i, q, r, 0)) ensures r == g.initial && q == 0 {
      var v :| |v| == 0 && Together(alphabet, t, g, q, r, v);
      assert Encode(alphabet, v) == [];
    }
  }

  lemma MeaningZStep(m: Assignment, alphabet: seq<Char>, t: Table, s: SampleData, nodes: seq<Node>, i: nat, e: Arrow,
      bound: nat)
    requires t.Valid() && t.Size() > 0 && t.letters == |alphabet| && IsMeaning(m, alphabet, t, s, nodes)
    requires i < |s.ex| && ReadableOver(alphabet, s.ex[i].a) && e in Arrows(s.ex[i].a)
    ensures ZStep(m, t.Size(), alphabet, i, e, bound)
  {
    var g := s.ex[i].a;
    forall p: nat, q: nat, l: nat | p < t.Size() && q < t.Size() && m(Z(i, p, e.0, l))
        && m(D(p, Index(alphabet, e.1.min), q))
      ensures m(Z(i, q, e.1.to, l + 1))
    {
      var v :| |v| == l && Together(alphabet, t, g, p, e.0, v);
      var v' := TogetherStep(alphabet, t, g, p, e.0, e.1, v);
    }
  }

  lemma MeaningZBackStep(m: Assignment, alphabet: seq<Char>, t: Table, s: SampleData, nodes: seq<Node>, i: nat,
      r: State, q: nat, l: nat)
    requires t.Valid() && t.Size() > 0 && t.letters == |alphabet| && IsMeaning(m, alphabet, t, s, nodes)
    requires i < |s.ex| && ReadableOver(alphabet, s.ex[i].a)
    ensures ZBackStep(m, t.Size(), alphabet, i, Arrows(s.ex[i].a), q, r, l)
  {
    var g := s.ex[i].a;
    if m(Z(i, q, r, l + 1)) {
      var v :| |v| == l + 1 && Together(alphabet, t, g, q, r, v);
      var p, r', e := TogetherBack(alphabet, t, g, q, r, v);
      assert (r', e) in Arrows(g);
      assert m(D(p, Index(alphabet, e.min), q)) && m(Z(i, p, r', l));
      assert ExplainedBy(m, t.Size(), alphabet, i, (r', e), q, l);
    }
  }

  lemma MeaningZSteps(m: Assignment, alphabet: seq<Char>, t: Table, s: SampleData, nodes: seq<Node>, i: nat, bound: nat)
    requires t.Valid() && t.Size() > 0 && t.letters == |alphabet| && IsMeaning(m, alphabet, t, s, nodes)
    requires i < |s.ex| && ReadableOver(alphabet, s.ex[i].a)
    ensures ZStart(m, t.Size(), i, s.ex[i].a) && ZSteps(m, t.Size(), alphabet, i, s.ex[i].a, bound)
    ensures ZBackSteps(m, t.Size(), alphabet, i, s.ex[i].a, bound)
  {
    MeaningZStart(m, alphabet, t, s, nodes, i);
    forall e | e in Arrows(s.ex[i].a) ensures ZStep(m, t.Size(), alphabet, i, e, bound) {
      MeaningZStep(m, alphabet, t, s, nodes, i, e, bound);
    }
    forall r, q: nat, l: nat ensures ZBackStep(m, t.Size(), alphabet, i, Arrows(s.ex[i].a), q, r, l) {
      MeaningZBackStep(m, alphabet, t, s, nodes, i, r, q, l);
    }
  }

  lemma MeaningExHolds(m: Assignment, alphabet: seq<Char>, t: Table, s: SampleData, nodes: seq<Node>,
      index: map<Letters, nat>, i: nat)
    requires t.Valid() && t.Size() > 0 && t.letters == |alphabet| && IsMeaning(m, alphabet, t, s, nodes)
    requires TreeOf(alphabet, s, nodes, index) && AgreesWithin(alphabet, t, s) && XHolds(m, t.Size(), t.letters, nodes)
        && i < |s.ex|
    requires Describes(m, t.Size(), t.letters, t)
    ensures ExHolds(m, t.Size(), alphabet, index, i, s.ex[i])
  {
    var c := s.ex[i];
    assert c in s.ex;
    var bound := Lengths(t.Size(), c.a);
    MeaningZSteps(m, alphabet, t, s, nodes, i, bound);
    AntecedentIsAcceptance(m, t.Size(), t, nodes, index, Encode(alphabet, c.u));
    if Antecedent(m, t.Size(), index[Encode(alphabet, c.u)]) {
      assert Witnessed(alphabet, t, Read(c.a), ZBound(t.Size(), c.a));
      var v :| |v| <= ZBound(t.Size(), c.a) && Read(c.a).Language(v) && Holds(alphabet, t, v);
      var q, r := AcceptedTogether(alphabet, t, c.a, v);
      assert m(Z(i, q, r, |v|)) && m(F(q));
      assert ZFound(m, t.Size(), i, c.a.ReachableStates() * c.a.accept, bound);
    }
  }

  /** Encoding completeness: an automaton that agrees within the bound gives a model. */
  lemma AgreeingIsModel(m: Assignment, alphabet: seq<Char>, t: Table, s: SampleData, nodes: seq<Node>,
      index: map<Letters, nat>)
    requires t.Valid() && t.Size() > 0 && t.letters == |alphabet| && IsMeaning(m, alphabet, t, s, nodes)
    requires TreeOf(alphabet, s, nodes, index) && AgreesWithin(alphabet, t, s)
    ensures Holding(m, t.Size(), alphabet, s, nodes, index)
  {
    MeaningDHolds(m, alphabet, t, s, nodes);
    MeaningXHolds(m, alphabet, t, s, nodes, index);
    assert Describes(m, t.Size(), t.letters, t);
    forall i | 0 <= i < |s.uni| ensures UniHolds(m, t.Size(), alphabet, index, i, s.uni[i]) {
      MeaningUniHolds(m, alphabet, t, s, nodes, index, i);
    }
    forall i | 0 <= i < |s.ex| ensures ExHolds(m, t.Size(), alphabet, index, i, s.ex[i]) {
      MeaningExHolds(m, alphabet, t, s, nodes, index, i);
    }
  }

  /** The constraints for n states have a model exactly when some n-state automaton agrees with the sample within the
      bound. */
  lemma SatisfiableIffAgreeing(n: nat, alphabet: seq<Char>, s: SampleData, nodes: seq<Node>, index: map<Letters, nat>)
    requires n > 0 && IsAlphabet(alphabet) && TreeOf(alphabet, s, nodes, index)
    ensures (exists m :: Holding(m, n, alphabet, s, nodes, index)) <==>
        exists t :: IsDfa(t, n, |alphabet|) && AgreesWithin(alphabet, t, s)
  {
    if m :| Holding(m, n, alphabet, s, nodes, index) {
      var t := ModelDescribes(m, n, |alphabet|);
      ModelAgrees(m, n, alphabet, s, nodes, index, t);
    }
    if t :| IsDfa(t, n, |alphabet|) && AgreesWithin(alphabet, t, s) {
      var m: Assignment := x => Meaning(alphabet, t, s, nodes, x);
      AgreeingIsModel(m, alphabet, t, s, nodes, index);
    }
  }

  /** A common run of length l + 1 has a last step. */
  lemma TogetherBack(alphabet: seq<Char>, t: Table, g: Graph, q: nat, s: State, v: Word)
      returns (p: nat, r: State, e: Transition)
    requires t.Valid() && t.Size() > 0 && t.letters == |alphabet| && ReadableOver(alphabet, g)
    requires Together(alphabet, t, g, q, s, v) && v != []
    ensures Together(alphabet, t, g, p, r, v[..|v| - 1]) && p < t.Size()
    ensures r in g.ReachableStates() && e in g.trans[r] && e.to == s && t.next[p][Index(alphabet, e.min)] == q
  {
    var u, c := v[..|v| - 1], v[|v| - 1];
    assert v == u + [c];
    r := ReachesSplit(Read(g), g.initial, u, c, s);
    assert Read(g).Valid();
    ReadReachable(g, u, r);
    e := ReadStep(alphabet, g, r, c, s);
    p := Run(t, 0, Encode(alphabet, u));
    assert Encode(alphabet, v) == Encode(alphabet, u) + [Index(alphabet, c)];
    RunSnoc(t, 0, Encode(alphabet, u), Index(alphabet, c));
  }

  lemma ReadReachable(g: Graph, u: Word, r: State)
    requires g.Valid() && Read(g).Reaches(g.initial, u, r)
    ensures r in g.ReachableStates()
  {
    WordReaches(Read(g), u, r);
    forall s | g.initial in s && Closed(g, s) ensures r in s {
      forall q, t | q in s && t in Read(g).trans[q] ensures t.to in s {
        var e :| e in g.trans[q] && t == Transition(e.min, e.min, e.to);
      }
      assert Closed(Read(g), s);
    }
    assert Closed(g, g.trans.Keys);
    assert g.Reachable(r);
  }
}
