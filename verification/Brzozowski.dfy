/** Brzozowski's minimization: reverse and determinize, twice. */
module Brzozowski {
  import opened Languages
  import opened Automata
  import opened BasicOperations

  // ----- reversal -----

  function Backwards(w: Word): Word {
    if w == [] then [] else Backwards(w[1..]) + [w[0]]
  }

  lemma {:induction false} BackwardsSnoc(w: Word, c: Char)
    ensures Backwards(w + [c]) == [c] + Backwards(w)
  {
    if w == [] {
      assert [c][1..] == [];
      assert Backwards([c]) == Backwards([]) + [c];
    } else {
      assert (w + [c])[1..] == w[1..] + [c];
      BackwardsSnoc(w[1..], c);
    }
  }

  lemma {:induction false} BackwardsTwice(w: Word)
    ensures Backwards(Backwards(w)) == w
  {
    if w != [] {
      BackwardsTwice(w[1..]);
      BackwardsSnoc(Backwards(w[1..]), w[0]);
    }
  }

  function Turned(t: Transition, from: State): Transition {
    Transition(t.min, t.max, from)
  }

  /** h has the transitions of g between the given states turned around, its runs end where those of g start, and its
      new initial state s copies the accepting states of g. */
  ghost predicate IsReversal(g: Graph, states: set<State>, accept: set<State>, h: Graph, s: State) {
    && Closed(g, states) && g.initial in states && s !in states && accept == states * g.accept
    && h.initial == s && h.trans.Keys == states + {s}
    && (forall q, t {:trigger t in h.trans[q]} :: q in states && t in h.trans[q] ==>
         t.to in states && Transition(t.min, t.max, q) in g.trans[t.to])
    && (forall p, t {:trigger t in g.trans[p]} :: p in states && t in g.trans[p] ==> Turned(t, p) in h.trans[t.to])
    && h.trans[s] == (set q, t | q in accept && t in h.trans[q] :: t)
    && h.accept == if g.initial in g.accept then {g.initial, s} else {g.initial}
  }

  lemma ReversedStep(g: Graph, states: set<State>, accept: set<State>, h: Graph, s: State, q: State, c: Char, p: State)
    requires IsReversal(g, states, accept, h, s) && q in states && p in states
    ensures p in h.Succ(q, c) <==> q in g.Succ(p, c)
  {
    if p in h.Succ(q, c) {
      var t :| t in h.trans[q] && t.Covers(c) && t.to == p;
      assert Transition(t.min, t.max, q) in g.trans[p] && Transition(t.min, t.max, q).Covers(c);
    }
    if q in g.Succ(p, c) {
      var t :| t in g.trans[p] && t.Covers(c) && t.to == q;
      assert Turned(t, p) in h.trans[q] && Turned(t, p).Covers(c);
    }
  }

  lemma ReversalIsClosed(g: Graph, states: set<State>, accept: set<State>, h: Graph, s: State)
    requires IsReversal(g, states, accept, h, s)
    ensures Closed(h, states)
  {
  }

  /** A word leads back where the reversed word leads. */
  lemma {:induction false} ReversedRun(g: Graph, states: set<State>, accept: set<State>, h: Graph, s: State, q: State,
      w: Word, p: State)
    requires IsReversal(g, states, accept, h, s) && q in states && p in states
    ensures h.Reaches(q, w, p) <==> g.Reaches(p, Backwards(w), q)
    decreases |w|
  {
    if w != [] {
      var c, v := w[0], Backwards(w[1..]);
      if h.Reaches(q, w, p) {
        var r :| r in h.Succ(q, c) && h.Reaches(r, w[1..], p);
        ReversalIsClosed(g, states, accept, h, s);
        assert r in states;
        ReversedRun(g, states, accept, h, s, r, w[1..], p);
        ReversedStep(g, states, accept, h, s, q, c, r);
        Farther(g, p, v, r, c, q);
      }
      if g.Reaches(p, v + [c], q) {
        var r := ReachesSplit(g, p, v, c, q);
        ClosedHoldsReached(g, states, p, v, r);
        ReversedRun(g, states, accept, h, s, r, w[1..], p);
        ReversedStep(g, states, accept, h, s, q, c, r);
      }
    }
  }

  /** What a state of the reversal accepts: the words that lead from the initial state to it, read backwards. */
  lemma ReversedAccepts(g: Graph, states: set<State>, accept: set<State>, h: Graph, s: State, q: State, w: Word)
    requires IsReversal(g, states, accept, h, s) && q in states
    ensures h.Accepts(q, w) <==> g.Reaches(g.initial, Backwards(w), q)
  {
    ReversalIsClosed(g, states, accept, h, s);
    ReversedRun(g, states, accept, h, s, q, w, g.initial);
    if h.Accepts(q, w) {
      var p := EndOfRun(h, q, w);
      ClosedHoldsReached(h, states, q, w, p);
    } else if h.Reaches(q, w, g.initial) {
      RunAccepts(h, q, w, g.initial);
    }
  }

  /** Started in the accepting states the reversal accepts the reversed language. */
  lemma ReversedLanguage(g: Graph, states: set<State>, accept: set<State>, h: Graph, s: State, w: Word)
    requires IsReversal(g, states, accept, h, s)
    ensures h.AcceptsFrom(accept, w) <==> g.Language(Backwards(w))
  {
    if q :| q in accept && h.Accepts(q, w) {
      ReversedAccepts(g, states, accept, h, s, q, w);
      RunAccepts(g, g.initial, Backwards(w), q);
    }
    if g.Language(Backwards(w)) {
      var q := EndOfRun(g, g.initial, Backwards(w));
      ClosedHoldsReached(g, states, g.initial, Backwards(w), q);
      ReversedAccepts(g, states, accept, h, s, q, w);
    }
  }

  /** Reverses the language of the automaton; returns the new initial states. */
  method Reverse(a: Automaton) returns (accept: set<State>)
    requires a.Valid()
    modifies a
    ensures a.Valid() && !a.deterministic
    ensures IsReversal(old(a.Snapshot()), old(a.Snapshot()).ReachableStates(), accept, a.Snapshot(), old(a.nextId))
  {
    ghost var g := a.Snapshot();
    var states := a.GetStates();
    accept := states * a.accept;
    var m := TurnAll(a.Snapshot(), states);
    var s := a.nextId;
    a.nextId := a.nextId + 1;
    var copied := set q, t | q in accept && t in m[q] :: t;
    a.accept := if a.initial in accept then {a.initial, s} else {a.initial};
    a.trans := m[s := copied];
    a.initial := s;
    a.deterministic := false;
    ghost var h := a.Snapshot();
    assert IsReversal(g, states, accept, h, s) by {
      assert forall q :: q in states ==> h.trans[q] == m[q];
    }
    ReversalIsValid(g, states, accept, h, s);
  }

  /** The loops that collect the turned transitions of the states. */
  method TurnAll(g: Graph, states: set<State>) returns (m: map<State, set<Transition>>)
    requires g.Valid() && Closed(g, states)
    ensures m.Keys == states
    ensures forall q, t {:trigger t in m[q]} :: q in states && t in m[q] ==>
        t.to in states && Transition(t.min, t.max, q) in g.trans[t.to]
    ensures forall p, t {:trigger t in g.trans[p]} :: p in states && t in g.trans[p] ==> Turned(t, p) in m[t.to]
  {
    m := map q | q in states :: {};
    var todo := states;
    while todo != {}
      invariant todo <= states && m.Keys == states
      invariant forall q, t {:trigger t in m[q]} :: q in states && t in m[q] ==>
          t.to in states && Transition(t.min, t.max, q) in g.trans[t.to]
      invariant forall p, t {:trigger t in g.trans[p]} :: p in states && p !in todo && t in g.trans[p] ==>
          Turned(t, p) in m[t.to]
    {
      var r :| r in todo;
      todo := todo - {r};
      m := TurnRow(g, states, m, r);
    }
  }

  method TurnRow(g: Graph, states: set<State>, m0: map<State, set<Transition>>, r: State)
      returns (m: map<State, set<Transition>>)
    requires g.Valid() && Closed(g, states) && m0.Keys == states && r in states
    requires forall q, t {:trigger t in m0[q]} :: q in states && t in m0[q] ==>
        t.to in states && Transition(t.min, t.max, q) in g.trans[t.to]
    ensures m.Keys == states && forall q :: q in states ==> m0[q] <= m[q]
    ensures forall q, t {:trigger t in m[q]} :: q in states && t in m[q] ==>
        t.to in states && Transition(t.min, t.max, q) in g.trans[t.to]
    ensures forall t {:trigger t in g.trans[r]} :: t in g.trans[r] ==> Turned(t, r) in m[t.to]
  {
    m := m0;
    var todo := g.trans[r];
    while todo != {}
      invariant todo <= g.trans[r] && m.Keys == states && forall q :: q in states ==> m0[q] <= m[q]
      invariant forall q, t {:trigger t in m[q]} :: q in states && t in m[q] ==>
          t.to in states && Transition(t.min, t.max, q) in g.trans[t.to]
      invariant forall t {:trigger t in g.trans[r]} :: t in g.trans[r] && t !in todo ==> Turned(t, r) in m[t.to]
    {
      var t :| t in todo;
      todo := todo - {t};
      m := m[t.to := m[t.to] + {Turned(t, r)}];
    }
  }

  lemma ReversalIsValid(g: Graph, states: set<State>, accept: set<State>, h: Graph, s: State)
    requires g.Valid() && IsReversal(g, states, accept, h, s)
    ensures h.Valid()
  {
    forall q, t | q in h.trans && t in h.trans[q] ensures t.min <= t.max && t.to in h.trans {
      if q == s {
        var p :| p in accept && t in h.trans[p];
      }
    }
  }

  // ----- minimality -----

  /** Subset construction on the reversal of a deterministic automaton without unreachable states: different sets accept
      differently. */
  lemma ReversedSetsDiffer(g: Graph, states: set<State>, accept: set<State>, h: Graph, s: State, x: set<State>,
      y: set<State>)
    requires g.Valid() && g.Deterministic() && IsReversal(g, states, accept, h, s)
    requires (forall q :: q in states ==> g.Reachable(q)) && x <= states && y <= states && x != y
    ensures exists w :: !(h.AcceptsFrom(x, w) <==> h.AcceptsFrom(y, w))
  {
    if q :| q in x && q !in y {
      OnlyInOne(g, states, accept, h, s, x, y, q);
    } else {
      var q :| q in y && q !in x;
      OnlyInOne(g, states, accept, h, s, y, x, q);
    }
  }

  lemma OnlyInOne(g: Graph, states: set<State>, accept: set<State>, h: Graph, s: State, x: set<State>, y: set<State>,
      q: State)
    requires g.Valid() && g.Deterministic() && IsReversal(g, states, accept, h, s)
    requires x <= states && y <= states && q in x && q !in y && g.Reachable(q)
    ensures exists w :: h.AcceptsFrom(x, w) && !h.AcceptsFrom(y, w)
  {
    var u := ReachableByWord(g, q);
    var w := Backwards(u);
    BackwardsTwice(u);
    ReversedAccepts(g, states, accept, h, s, q, w);
    assert h.AcceptsFrom(x, w);
    if p :| p in y && h.Accepts(p, w) {
      ReversedAccepts(g, states, accept, h, s, p, w);
      DeterministicRun(g, g.initial, u, q, p);
    }
  }

  /** One reversal and determinization. */
  method ReverseAndDeterminize(a: Automaton)
      returns (ghost sets: seq<set<State>>, ghost h: Graph, ghost accept: set<State>)
    requires a.Valid()
    modifies a
    ensures a.Clean() && a.deterministic && forall q :: q in a.trans ==> a.Snapshot().Reachable(q)
    ensures forall w :: a.Snapshot().Language(w) <==> old(a.Snapshot()).Language(Backwards(w))
    ensures IsReversal(old(a.Snapshot()), old(a.Snapshot()).ReachableStates(), accept, h, old(a.nextId))
    ensures Determinizes(h, sets, a.Snapshot()) && forall i {:trigger sets[i]} :: 0 <= i < |sets| ==>
        sets[i] <= old(a.Snapshot()).ReachableStates()
  {
    ghost var g, s := a.Snapshot(), a.nextId;
    ghost var states := g.ReachableStates();
    var initialset := Reverse(a);
    accept := initialset;
    h := a.Snapshot();
    ReversalIsClosed(g, states, accept, h, s);
    forall q | q in initialset ensures h.trans[q] <= h.trans[h.initial] {}
    sets := DeterminizeFrom(a, initialset, states);
    forall w ensures a.Snapshot().Language(w) <==> g.Language(Backwards(w)) {
      ReversedLanguage(g, states, accept, h, s, w);
    }
  }

  lemma DifferentStatesDiffer(d: Graph, h: Graph, s: State, accept: set<State>, sets: seq<set<State>>, k: Graph,
      q: State, p: State)
    requires d.Valid() && d.Deterministic() && IsReversal(d, d.ReachableStates(), accept, h, s)
    requires Determinizes(h, sets, k) && forall i {:trigger sets[i]} :: 0 <= i < |sets| ==>
        sets[i] <= d.ReachableStates()
    requires q in k.trans && p in k.trans && q != p
    ensures !k.SameRight(q, p)
  {
    assert sets[q] != sets[p];
    ReversedSetsDiffer(d, d.ReachableStates(), accept, h, s, sets[q], sets[p]);
    var w :| !(h.AcceptsFrom(sets[q], w) <==> h.AcceptsFrom(sets[p], w));
    assert !(k.Accepts(q, w) <==> k.Accepts(p, w));
  }

  /** Determinizing the reversal of a deterministic automaton without unreachable states gives a minimal automaton. */
  lemma DifferentSetsAreMinimal(d: Graph, h: Graph, s: State, accept: set<State>, sets: seq<set<State>>, k: Graph)
    requires d.Valid() && d.Deterministic() && IsReversal(d, d.ReachableStates(), accept, h, s)
    requires k.Valid() && Determinizes(h, sets, k) && forall i {:trigger sets[i]} :: 0 <= i < |sets| ==>
        sets[i] <= d.ReachableStates()
    ensures k.Minimal()
  {
    assert Closed(k, k.trans.Keys);
    forall q: State, p: State | k.Reachable(q) && k.Reachable(p) && k.SameRight(q, p) ensures q == p {
      if q != p {
        DifferentStatesDiffer(d, h, s, accept, sets, k, q, p);
      }
    }
  }

  /** Minimizes the automaton. */
  method MinimizeBrzozowski(a: Automaton)
    requires a.Valid()
    modifies a
    ensures a.Clean() && a.deterministic
    ensures SameLanguage(old(a.Snapshot()), a.Snapshot())
    ensures a.Snapshot().Minimal()
  {
    ghost var g := a.Snapshot();
    ghost var sets, h, accept;
    sets, h, accept := ReverseAndDeterminize(a);
    ghost var d, s := a.Snapshot(), a.nextId;
    sets, h, accept := ReverseAndDeterminize(a);
    ghost var k := a.Snapshot();
    forall w ensures g.Language(w) <==> k.Language(w) {
      assert k.Language(w) <==> d.Language(Backwards(w));
      assert d.Language(Backwards(w)) <==> g.Language(Backwards(Backwards(w)));
      BackwardsTwice(w);
    }
    DifferentSetsAreMinimal(d, h, s, accept, sets, k);
  }
}
