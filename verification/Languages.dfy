/** Finite automata over closed character intervals, and the languages they accept.

    A state is a number (the identity of a State object), a transition carries a closed
    interval of 16-bit characters, and a Graph is what an Automaton object holds at one moment. */
module Languages {

  const MIN_CHAR: Char := 0
  const MAX_CHAR: Char := 0xFFFF

  type Char = c: int | 0 <= c <= 0xFFFF
  type Word = seq<Char>
  type State = nat

  datatype Transition = Transition(min: Char, max: Char, to: State) {
    predicate Covers(c: Char) {
      min <= c <= max
    }
  }

  datatype Graph = Graph(initial: State, accept: set<State>, trans: map<State, set<Transition>>) {

    /** The targets exist and every interval is non-empty (the class invariant of Transition). */
    ghost predicate Valid() {
      && initial in trans
      && accept <= trans.Keys
      && forall q, t {:trigger t in trans[q]} :: q in trans && t in trans[q] ==> t.min <= t.max && t.to in trans
    }

    function Out(q: State): set<Transition> {
      if q in trans then trans[q] else {}
    }

    /** The part of the graph that lives on the given states. */
    function Restrict(s: set<State>): Graph {
      Graph(initial, accept * s, map q | q in s && q in trans :: trans[q])
    }

    function Succ(q: State, c: Char): set<State> {
      set t | t in Out(q) && t.Covers(c) :: t.to
    }

    function SuccSet(s: set<State>, c: Char): set<State> {
      set q, t | q in s && t in Out(q) && t.Covers(c) :: t.to
    }

    /** The right language of q. */
    ghost predicate Accepts(q: State, w: Word)
      decreases |w|
    {
      if w == [] then q in accept
      else exists p :: p in Succ(q, w[0]) && Accepts(p, w[1..])
    }

    ghost predicate AcceptsFrom(s: set<State>, w: Word) {
      exists q :: q in s && Accepts(q, w)
    }

    ghost predicate Language(w: Word) {
      Accepts(initial, w)
    }

    ghost predicate Reaches(q: State, w: Word, p: State)
      decreases |w|
    {
      if w == [] then q == p
      else exists r :: r in Succ(q, w[0]) && Reaches(r, w[1..], p)
    }

    /** p belongs to every set of states that holds the initial state and that no transition leaves.
        ReachableByWord and WordReaches say the same with words. */
    ghost predicate Reachable(p: State) {
      forall s {:trigger Closed(this, s)} :: initial in s && Closed(this, s) ==> p in s
    }

    ghost function ReachableStates(): set<State> {
      set q | q in trans && Reachable(q)
    }

    ghost predicate Live(q: State) {
      exists w :: Accepts(q, w)
    }

    /** Two states with the same right language. */
    ghost predicate SameRight(q: State, p: State) {
      forall w :: Accepts(q, w) <==> Accepts(p, w)
    }

    /** No run ever has a choice. */
    ghost predicate Deterministic() {
      forall q, t, u {:trigger t in trans[q], u in trans[q]} ::
          q in trans && t in trans[q] && u in trans[q] && t != u ==> t.max < u.min || u.max < t.min
    }

    ghost predicate Total() {
      forall q, c: Char :: q in trans ==> Succ(q, c) != {}
    }

    /** No transition leads to a state from which nothing can be accepted. */
    ghost predicate NoDeadTransitions() {
      forall q, t {:trigger t in trans[q], Live(t.to)} :: q in trans && t in trans[q] ==> Live(t.to)
    }

    /** Overlapping and adjacent intervals with the same destination have been combined. */
    ghost predicate Reduced() {
      forall q, t, u {:trigger t in trans[q], u in trans[q]} :: q in trans && t in trans[q] && u in trans[q] && t != u
          && t.to == u.to
        ==> t.max + 1 < u.min || u.max + 1 < t.min
    }

    /** All states can be told apart by a word. */
    ghost predicate Minimal() {
      forall q, p :: Reachable(q) && Reachable(p) && SameRight(q, p) ==> q == p
    }
  }

  /** A set of states that no transition leaves. */
  ghost predicate Closed(g: Graph, s: set<State>) {
    s <= g.trans.Keys && forall q, t {:trigger t in g.trans[q]} :: q in s && t in g.trans[q] ==> t.to in s
  }

  ghost predicate SameLanguage(g: Graph, h: Graph) {
    forall w :: g.Language(w) <==> h.Language(w)
  }

  /** Every step of g from a related state is answered by a step of h that stays in the relation. */
  ghost predicate Simulation(g: Graph, h: Graph, r: (State, State) -> bool) {
    && (forall q, p :: r(q, p) && q in g.accept ==> p in h.accept)
    && (forall q, p, c: Char, q' :: r(q, p) && q' in g.Succ(q, c) ==> exists p' :: p' in h.Succ(p, c) && r(q', p'))
  }

  lemma {:induction false} SimulationAccepts(g: Graph, h: Graph, r: (State, State) -> bool, q: State, p: State, w: Word)
    requires Simulation(g, h, r) && r(q, p) && g.Accepts(q, w)
    ensures h.Accepts(p, w)
    decreases |w|
  {
    if w != [] {
      var q' :| q' in g.Succ(q, w[0]) && g.Accepts(q', w[1..]);
      var p' :| p' in h.Succ(p, w[0]) && r(q', p');
      SimulationAccepts(g, h, r, q', p', w[1..]);
    }
  }

  /** Graphs with the same acceptance and the same successors give every state the same right language. */
  lemma {:induction false} SameSuccessorsAgree(g: Graph, h: Graph, q: State, w: Word)
    requires g.accept == h.accept
    requires forall p, c: Char :: g.Succ(p, c) == h.Succ(p, c)
    ensures g.Accepts(q, w) <==> h.Accepts(q, w)
    decreases |w|
  {
    if w != [] {
      forall p ensures g.Accepts(p, w[1..]) <==> h.Accepts(p, w[1..]) {
        SameSuccessorsAgree(g, h, p, w[1..]);
      }
    }
  }

  lemma {:induction false} ReachesThen(g: Graph, q: State, u: Word, p: State, v: Word, r: State)
    requires g.Reaches(q, u, p) && g.Reaches(p, v, r)
    ensures g.Reaches(q, u + v, r)
    decreases |u|
  {
    if u == [] {
      assert u + v == v;
    } else {
      var q' :| q' in g.Succ(q, u[0]) && g.Reaches(q', u[1..], p);
      ReachesThen(g, q', u[1..], p, v, r);
      assert (u + v)[1..] == u[1..] + v;
    }
  }

  lemma {:induction false} ReachesThenAccepts(g: Graph, q: State, u: Word, p: State, v: Word)
    requires g.Reaches(q, u, p) && g.Accepts(p, v)
    ensures g.Accepts(q, u + v)
    decreases |u|
  {
    if u == [] {
      assert u + v == v;
    } else {
      var q' :| q' in g.Succ(q, u[0]) && g.Reaches(q', u[1..], p);
      ReachesThenAccepts(g, q', u[1..], p, v);
      assert (u + v)[1..] == u[1..] + v;
    }
  }

  /** A run splits at every position. */
  lemma {:induction false} AcceptsSplit(g: Graph, q: State, u: Word, v: Word) returns (p: State)
    requires g.Accepts(q, u + v)
    ensures g.Reaches(q, u, p) && g.Accepts(p, v)
    decreases |u|
  {
    if u == [] {
      assert u + v == v;
      p := q;
    } else {
      assert (u + v)[1..] == u[1..] + v;
      var q' :| q' in g.Succ(q, u[0]) && g.Accepts(q', u[1..] + v);
      p := AcceptsSplit(g, q', u[1..], v);
    }
  }

  /** Where an accepting run ends. */
  lemma {:induction false} EndOfRun(g: Graph, q: State, v: Word) returns (r: State)
    requires g.Accepts(q, v)
    ensures g.Reaches(q, v, r) && r in g.accept
    decreases |v|
  {
    if v == [] {
      r := q;
    } else {
      var p :| p in g.Succ(q, v[0]) && g.Accepts(p, v[1..]);
      r := EndOfRun(g, p, v[1..]);
    }
  }

  lemma {:induction false} RunAccepts(g: Graph, q: State, v: Word, r: State)
    requires g.Reaches(q, v, r) && r in g.accept
    ensures g.Accepts(q, v)
    decreases |v|
  {
    if v != [] {
      var p :| p in g.Succ(q, v[0]) && g.Reaches(p, v[1..], r);
      RunAccepts(g, p, v[1..], r);
    }
  }

  /** One more character. */
  lemma Farther(g: Graph, q: State, w: Word, p: State, c: Char, r: State)
    requires g.Reaches(q, w, p) && r in g.Succ(p, c)
    ensures g.Reaches(q, w + [c], r)
  {
    assert [c][1..] == [] && g.Reaches(r, [c][1..], r);
    assert g.Reaches(p, [c], r);
    ReachesThen(g, q, w, p, [c], r);
  }

  /** The last step of a run. */
  lemma {:induction false} ReachesSplit(g: Graph, q: State, u: Word, c: Char, s: State) returns (r: State)
    requires g.Reaches(q, u + [c], s)
    ensures g.Reaches(q, u, r) && s in g.Succ(r, c)
    decreases |u|
  {
    if u == [] {
      r := q;
      var s' :| s' in g.Succ(q, ([] + [c])[0]) && g.Reaches(s', ([] + [c])[1..], s);
      assert s' == s;
    } else {
      assert (u + [c])[1..] == u[1..] + [c];
      var q' :| q' in g.Succ(q, u[0]) && g.Reaches(q', u[1..] + [c], s);
      r := ReachesSplit(g, q', u[1..], c, s);
    }
  }

  lemma ReachableStep(g: Graph, q: State, t: Transition)
    requires g.Reachable(q) && q in g.trans && t in g.trans[q]
    ensures g.Reachable(t.to)
  {
  }

  lemma ReachableByWord(g: Graph, p: State) returns (w: Word)
    requires g.Valid() && g.Reachable(p)
    ensures g.Reaches(g.initial, w, p)
  {
    var s := set q | q in g.trans && exists w :: g.Reaches(g.initial, w, q);
    assert g.Reaches(g.initial, [], g.initial);
    forall q, t | q in s && t in g.trans[q] ensures t.to in s {
      var w :| g.Reaches(g.initial, w, q);
      ReachesByTransition(g, w, q, t);
    }
    assert Closed(g, s);
    w :| g.Reaches(g.initial, w, p);
  }

  lemma WordReaches(g: Graph, w: Word, p: State)
    requires g.Reaches(g.initial, w, p)
    ensures g.Reachable(p)
  {
    forall s | g.initial in s && Closed(g, s) ensures p in s {
      ClosedHoldsReached(g, s, g.initial, w, p);
    }
  }

  lemma ReachesByTransition(g: Graph, w: Word, q: State, t: Transition)
    requires g.Valid() && g.Reaches(g.initial, w, q) && q in g.trans && t in g.trans[q]
    ensures g.Reaches(g.initial, w + [t.min], t.to)
  {
    assert t.Covers(t.min);
    Farther(g, g.initial, w, q, t.min, t.to);
  }

  lemma {:induction false} ClosedHoldsReached(g: Graph, s: set<State>, q: State, w: Word, p: State)
    requires Closed(g, s) && q in s && g.Reaches(q, w, p)
    ensures p in s
    decreases |w|
  {
    if w != [] {
      var r :| r in g.Succ(q, w[0]) && g.Reaches(r, w[1..], p);
      ClosedHoldsReached(g, s, r, w[1..], p);
    }
  }

  lemma DeterministicStep(g: Graph, q: State, c: Char, p: State, r: State)
    requires g.Deterministic() && p in g.Succ(q, c) && r in g.Succ(q, c)
    ensures p == r
  {
    var t :| t in g.Out(q) && t.Covers(c) && t.to == p;
    var u :| u in g.Out(q) && u.Covers(c) && u.to == r;
  }

  /** A deterministic automaton has at most one run on a word. */
  lemma {:induction false} DeterministicRun(g: Graph, q: State, w: Word, p: State, r: State)
    requires g.Deterministic() && g.Reaches(q, w, p) && g.Reaches(q, w, r)
    ensures p == r
    decreases |w|
  {
    if w != [] {
      var p' :| p' in g.Succ(q, w[0]) && g.Reaches(p', w[1..], p);
      var r' :| r' in g.Succ(q, w[0]) && g.Reaches(r', w[1..], r);
      DeterministicStep(g, q, w[0], p', r');
      DeterministicRun(g, p', w[1..], p, r);
    }
  }

  lemma RestrictIsValid(g: Graph, s: set<State>)
    requires g.Valid() && Closed(g, s) && g.initial in s
    ensures g.Restrict(s).Valid()
    ensures g.Deterministic() ==> g.Restrict(s).Deterministic()
  {
  }

  lemma {:induction false} RestrictKeepsLanguages(g: Graph, s: set<State>, q: State, w: Word)
    requires Closed(g, s) && q in s
    ensures g.Accepts(q, w) <==> g.Restrict(s).Accepts(q, w)
    decreases |w|
  {
    if w != [] {
      assert g.Succ(q, w[0]) == g.Restrict(s).Succ(q, w[0]);
      forall p | p in g.Succ(q, w[0]) ensures g.Accepts(p, w[1..]) <==> g.Restrict(s).Accepts(p, w[1..]) {
        RestrictKeepsLanguages(g, s, p, w[1..]);
      }
    }
  }

  lemma AcceptsFromStep(g: Graph, s: set<State>, w: Word)
    requires w != []
    ensures g.AcceptsFrom(s, w) <==> g.AcceptsFrom(g.SuccSet(s, w[0]), w[1..])
  {
    if g.AcceptsFrom(s, w) {
      var q :| q in s && g.Accepts(q, w);
      var p :| p in g.Succ(q, w[0]) && g.Accepts(p, w[1..]);
      assert p in g.SuccSet(s, w[0]);
    }
    if g.AcceptsFrom(g.SuccSet(s, w[0]), w[1..]) {
      var p :| p in g.SuccSet(s, w[0]) && g.Accepts(p, w[1..]);
      var q, t :| q in s && t in g.Out(q) && t.Covers(w[0]) && t.to == p;
      assert p in g.Succ(q, w[0]);
      assert g.Accepts(q, w);
    }
  }

  // ----- start points: one representative for each class of characters no transition tells apart -----

  ghost predicate IsPoints(points: seq<Char>) {
    && |points| > 0 && points[0] == MIN_CHAR
    && forall i, j :: 0 <= i < j < |points| ==> points[i] < points[j]
  }

  /** The last character of the i-th class. */
  function UpTo(points: seq<Char>, i: nat): Char
    requires IsPoints(points) && i < |points|
  {
    if i + 1 < |points| then assert points[0] <= points[i] < points[i + 1]; points[i + 1] - 1 else MAX_CHAR
  }

  ghost predicate InClass(points: seq<Char>, i: nat, c: Char) {
    IsPoints(points) && i < |points| && points[i] <= c <= UpTo(points, i)
  }

  /** Every transition leaving one of the states covers a class entirely or not at all. */
  ghost predicate PointsFit(g: Graph, s: set<State>, points: seq<Char>) {
    IsPoints(points) &&
    forall q, t, i: nat, c :: q in s && t in g.Out(q) && InClass(points, i, c) ==>
        (t.Covers(c) <==> t.Covers(points[i]))
  }

  lemma ClassOf(points: seq<Char>, c: Char) returns (i: nat)
    requires IsPoints(points)
    ensures InClass(points, i, c)
  {
    i := |points| - 1;
    while points[i] > c
      invariant i < |points| && (i + 1 < |points| ==> c < points[i + 1])
    {
      i := i - 1;
    }
  }

  lemma ClassIsUnique(points: seq<Char>, i: nat, j: nat, c: Char)
    requires InClass(points, i, c) && InClass(points, j, c)
    ensures i == j
  {
  }

  lemma FittingSucc(g: Graph, s: set<State>, points: seq<Char>, part: set<State>, i: nat, c: Char)
    requires PointsFit(g, s, points) && part <= s && InClass(points, i, c)
    ensures g.SuccSet(part, c) == g.SuccSet(part, points[i])
  {
    forall p ensures p in g.SuccSet(part, c) <==> p in g.SuccSet(part, points[i]) {
      if p in g.SuccSet(part, c) {
        var q, t :| q in part && t in g.Out(q) && t.Covers(c) && t.to == p;
        assert t.Covers(points[i]);
      }
      if p in g.SuccSet(part, points[i]) {
        var q, t :| q in part && t in g.Out(q) && t.Covers(points[i]) && t.to == p;
        assert t.Covers(c);
      }
    }
  }
}
