/** The union of two automata: one graph beside the other and a fresh initial state with epsilon transitions to both. */
module Unions {
  import opened Languages
  import opened Automata
  import opened Products

  /** The identity a state gets when its automaton is moved out of the way of another. */
  function Up(q: State, d: nat): State {
    q + d
  }

  function Lifted(t: Transition, d: nat): Transition {
    Transition(t.min, t.max, Up(t.to, d))
  }

  function LiftedRow(ts: set<Transition>, d: nat): set<Transition> {
    set t | t in ts :: Lifted(t, d)
  }

  function LiftedStates(s: set<State>, d: nat): set<State> {
    set q | q in s :: Up(q, d)
  }

  ghost predicate EmbedsAt(g: Graph, h: Graph, d: nat, q: State)
    requires q in g.trans
  {
    Up(q, d) in h.trans && h.trans[Up(q, d)] == LiftedRow(g.trans[q], d) && (q in g.accept <==> Up(q, d) in h.accept)
  }

  /** The states of g live in h under their new identities. */
  ghost predicate Embeds(g: Graph, h: Graph, d: nat) {
    forall q {:trigger EmbedsAt(g, h, d, q)} :: q in g.trans ==> EmbedsAt(g, h, d, q)
  }

  lemma EmbedSuccUp(g: Graph, h: Graph, d: nat, q: State, c: Char, p: State)
    requires q in g.trans && EmbedsAt(g, h, d, q) && p in g.Succ(q, c)
    ensures Up(p, d) in h.Succ(Up(q, d), c)
  {
    var t :| t in g.Out(q) && t.Covers(c) && t.to == p;
    assert Lifted(t, d) in h.Out(Up(q, d));
  }

  lemma EmbedSuccDown(g: Graph, h: Graph, d: nat, q: State, c: Char, r: State) returns (p: State)
    requires q in g.trans && EmbedsAt(g, h, d, q) && r in h.Succ(Up(q, d), c)
    ensures p in g.Succ(q, c) && r == Up(p, d)
  {
    var u :| u in h.Out(Up(q, d)) && u.Covers(c) && u.to == r;
    var t :| t in g.trans[q] && u == Lifted(t, d);
    p := t.to;
  }

  lemma {:induction false} EmbedAccepts(g: Graph, h: Graph, d: nat, q: State, w: Word)
    requires g.Valid() && Embeds(g, h, d) && q in g.trans
    ensures h.Accepts(Up(q, d), w) <==> g.Accepts(q, w)
    decreases |w|
  {
    assert EmbedsAt(g, h, d, q);
    if w != [] {
      if p :| p in g.Succ(q, w[0]) && g.Accepts(p, w[1..]) {
        EmbedSuccUp(g, h, d, q, w[0], p);
        EmbedAccepts(g, h, d, p, w[1..]);
      }
      if r :| r in h.Succ(Up(q, d), w[0]) && h.Accepts(r, w[1..]) {
        var p := EmbedSuccDown(g, h, d, q, w[0], r);
        EmbedAccepts(g, h, d, p, w[1..]);
      }
    }
  }

  lemma EmbedLive(g: Graph, h: Graph, d: nat, q: State)
    requires g.Valid() && Embeds(g, h, d) && q in g.trans && g.Live(q)
    ensures h.Live(Up(q, d))
  {
    var w :| g.Accepts(q, w);
    EmbedAccepts(g, h, d, q, w);
  }

  /** Two graphs inside h, and an initial state that behaves like both initial states. */
  ghost predicate Joins(g1: Graph, g2: Graph, d: nat, h: Graph) {
    && g1.Valid() && g2.Valid() && Embeds(g1, h, 0) && Embeds(g2, h, d)
    && h.initial in h.trans && h.trans[h.initial] == LiftedRow(g1.trans[g1.initial], 0) +
         LiftedRow(g2.trans[g2.initial], d)
    && (h.initial in h.accept <==> g1.initial in g1.accept || g2.initial in g2.accept)
    && Origins(g1, g2, d, h)
    && h.accept <= h.trans.Keys
  }

  ghost predicate FromOne(g: Graph, h: Graph, d: nat, q: State)
    requires q in h.trans
  {
    q >= d && q - d in g.trans && h.trans[q] == LiftedRow(g.trans[q - d], d)
  }

  ghost predicate Origin(g1: Graph, g2: Graph, d: nat, h: Graph, q: State)
    requires q in h.trans
  {
    q == h.initial || FromOne(g1, h, 0, q) || FromOne(g2, h, d, q)
  }

  ghost predicate Origins(g1: Graph, g2: Graph, d: nat, h: Graph) {
    forall q {:trigger Origin(g1, g2, d, h, q)} :: q in h.trans ==> Origin(g1, g2, d, h, q)
  }

  lemma JoinedLanguage(g1: Graph, g2: Graph, d: nat, h: Graph, w: Word)
    requires Joins(g1, g2, d, h)
    ensures h.Language(w) <==> g1.Language(w) || g2.Language(w)
  {
    if w != [] {
      var c := w[0];
      assert EmbedsAt(g1, h, 0, g1.initial) && EmbedsAt(g2, h, d, g2.initial);
      assert h.Succ(h.initial, c) == h.Succ(Up(g1.initial, 0), c) + h.Succ(Up(g2.initial, d), c);
      EmbedAccepts(g1, h, 0, g1.initial, w);
      EmbedAccepts(g2, h, d, g2.initial, w);
    }
  }

  /** Every transition of the union comes from one of the two automata. */
  lemma FromWhere(g1: Graph, g2: Graph, d: nat, h: Graph, q: State, t: Transition)
      returns (first: bool, p: State, u: Transition)
    requires Joins(g1, g2, d, h) && q in h.trans && t in h.trans[q]
    ensures first ==> p in g1.trans && u in g1.trans[p] && t == Lifted(u, 0)
    ensures !first ==> p in g2.trans && u in g2.trans[p] && t == Lifted(u, d)
  {
    assert Origin(g1, g2, d, h, q);
    first := if q == h.initial then t in LiftedRow(g1.trans[g1.initial], 0) else FromOne(g1, h, 0, q);
    if first {
      p := if q == h.initial then g1.initial else q;
      u :| u in g1.trans[p] && t == Lifted(u, 0);
    } else {
      p := if q == h.initial then g2.initial else q - d;
      u :| u in g2.trans[p] && t == Lifted(u, d);
    }
  }

  lemma JoinedIsValid(g1: Graph, g2: Graph, d: nat, h: Graph)
    requires Joins(g1, g2, d, h)
    ensures h.Valid()
    ensures g1.NoDeadTransitions() && g2.NoDeadTransitions() ==> h.NoDeadTransitions()
  {
    forall q, t | q in h.trans && t in h.trans[q]
      ensures t.min <= t.max && t.to in h.trans
      ensures g1.NoDeadTransitions() && g2.NoDeadTransitions() ==> h.Live(t.to)
    {
      var first, p, u := FromWhere(g1, g2, d, h, q, t);
      if first {
        assert EmbedsAt(g1, h, 0, u.to);
        if g1.NoDeadTransitions() {
          assert g1.Live(u.to);
          EmbedLive(g1, h, 0, u.to);
        }
      } else {
        assert EmbedsAt(g2, h, d, u.to);
        if g2.NoDeadTransitions() {
          assert g2.Live(u.to);
          EmbedLive(g2, h, d, u.to);
        }
      }
    }
  }

  function LiftedTrans(trans: map<State, set<Transition>>, d: nat): map<State, set<Transition>> {
    map r: State | r in LiftedStates(trans.Keys, d) :: if r >= d && r - d in trans then LiftedRow(trans[r - d], d)
      else {}
  }

  /** Both graphs, the second moved out of the way of the first, under the new initial state s. */
  function Joined(g1: Graph, g2: Graph, d: nat, s: State): Graph {
    Graph(s,
          g1.accept + LiftedStates(g2.accept, d) + (if g1.initial in g1.accept || g2.initial in g2.accept then {s}
            else {}),
          (g1.trans + LiftedTrans(g2.trans, d))[s := g1.Out(g1.initial) + LiftedRow(g2.Out(g2.initial), d)])
  }

  lemma LiftNothing(ts: set<Transition>)
    ensures LiftedRow(ts, 0) == ts
  {
    assert forall t :: t in ts ==> Lifted(t, 0) == t;
  }

  ghost predicate Below(trans: map<State, set<Transition>>, n: nat) {
    forall q {:trigger q in trans} :: q in trans ==> q < n
  }

  lemma FirstIsInside(g1: Graph, g2: Graph, d: nat, s: State, q: State)
    requires g1.Valid() && g2.Valid() && Below(g1.trans, d) && d <= s && q in g1.trans
    ensures EmbedsAt(g1, Joined(g1, g2, d, s), 0, q) && FromOne(g1, Joined(g1, g2, d, s), 0, q)
  {
    LiftNothing(g1.trans[q]);
    assert q < d && q !in LiftedStates(g2.trans.Keys, d) && q !in LiftedStates(g2.accept, d);
  }

  lemma SecondIsInside(g1: Graph, g2: Graph, d: nat, s: State, q: State)
    requires g1.Valid() && g2.Valid() && Below(g1.trans, d) && q in g2.trans && Up(q, d) < s
    ensures EmbedsAt(g2, Joined(g1, g2, d, s), d, q) && FromOne(g2, Joined(g1, g2, d, s), d, Up(q, d))
  {
    assert Up(q, d) in LiftedStates(g2.trans.Keys, d);
    assert Up(q, d) !in g1.trans && Up(q, d) !in g1.accept;
    assert q in g2.accept <==> Up(q, d) in LiftedStates(g2.accept, d);
  }

  lemma JoinedStart(g1: Graph, g2: Graph, d: nat, e: nat)
    requires g1.Valid() && g2.Valid() && Below(g1.trans, d) && Below(g2.trans, e)
    ensures d + e in Joined(g1, g2, d, d + e).accept <==> g1.initial in g1.accept || g2.initial in g2.accept
    ensures Joined(g1, g2, d, d + e).trans[d + e] == LiftedRow(g1.trans[g1.initial], 0) +
        LiftedRow(g2.trans[g2.initial], d)
    ensures Joined(g1, g2, d, d + e).accept <= Joined(g1, g2, d, d + e).trans.Keys
  {
    var h := Joined(g1, g2, d, d + e);
    LiftNothing(g1.trans[g1.initial]);
    assert d + e !in g1.accept;
    assert d + e !in LiftedStates(g2.accept, d);
    forall q | q in h.accept ensures q in h.trans {
      if q in LiftedStates(g2.accept, d) {
        var p :| p in g2.accept && q == Up(p, d);
        assert q in LiftedStates(g2.trans.Keys, d);
      }
    }
  }

  lemma JoinedOrigin(g1: Graph, g2: Graph, d: nat, e: nat, q: State)
    requires g1.Valid() && g2.Valid() && Below(g1.trans, d) && Below(g2.trans, e) && q in Joined(g1, g2, d, d + e).trans
    ensures Origin(g1, g2, d, Joined(g1, g2, d, d + e), q) && q <= d + e
  {
    if q in g1.trans {
      FirstIsInside(g1, g2, d, d + e, q);
    } else if q != d + e {
      var p :| p in g2.trans && q == Up(p, d);
      SecondIsInside(g1, g2, d, d + e, p);
    }
  }

  lemma BothInside(g1: Graph, g2: Graph, d: nat, e: nat)
    requires g1.Valid() && g2.Valid() && Below(g1.trans, d) && Below(g2.trans, e)
    ensures Embeds(g1, Joined(g1, g2, d, d + e), 0) && Embeds(g2, Joined(g1, g2, d, d + e), d)
  {
    var h := Joined(g1, g2, d, d + e);
    forall q | q in g1.trans ensures EmbedsAt(g1, h, 0, q) {
      FirstIsInside(g1, g2, d, d + e, q);
    }
    forall q | q in g2.trans ensures EmbedsAt(g2, h, d, q) {
      SecondIsInside(g1, g2, d, d + e, q);
    }
  }

  lemma JoinedOrigins(g1: Graph, g2: Graph, d: nat, e: nat)
    requires g1.Valid() && g2.Valid() && Below(g1.trans, d) && Below(g2.trans, e)
    ensures Origins(g1, g2, d, Joined(g1, g2, d, d + e))
    ensures Below(Joined(g1, g2, d, d + e).trans, d + e + 1)
  {
    var h := Joined(g1, g2, d, d + e);
    forall q | q in h.trans ensures Origin(g1, g2, d, h, q) && q <= d + e {
      JoinedOrigin(g1, g2, d, e, q);
    }
  }

  lemma JoinedJoins(g1: Graph, g2: Graph, d: nat, e: nat)
    requires g1.Valid() && g2.Valid() && Below(g1.trans, d) && Below(g2.trans, e)
    ensures Joins(g1, g2, d, Joined(g1, g2, d, d + e))
    ensures Below(Joined(g1, g2, d, d + e).trans, d + e + 1)
  {
    BothInside(g1, g2, d, e);
    JoinedOrigins(g1, g2, d, e);
    JoinedStart(g1, g2, d, e);
  }

  /** The joined graph, with the language of both. */
  method Join(g1: Graph, g2: Graph, d: nat, e: nat) returns (h: Graph)
    requires g1.Valid() && g2.Valid() && Below(g1.trans, d) && Below(g2.trans, e)
    ensures Joins(g1, g2, d, h) && Below(h.trans, d + e + 1)
  {
    h := Joined(g1, g2, d, d + e);
    JoinedJoins(g1, g2, d, e);
  }

  method Union(a1: Automaton, a2: Automaton) returns (b: Automaton)
    requires a1.Valid() && a2.Valid()
    ensures fresh(b) && b.Valid()
    ensures a1.Snapshot().NoDeadTransitions() && a2.Snapshot().NoDeadTransitions() ==> b.Snapshot().NoDeadTransitions()
    ensures forall w :: b.Snapshot().Language(w) <==> a1.Snapshot().Language(w) || a2.Snapshot().Language(w)
  {
    if a1 == a2 {
      b := Clone(a1);
      return;
    }
    ghost var g1, g2 := a1.Snapshot(), a2.Snapshot();
    var h := Join(a1.Snapshot(), a2.Snapshot(), a1.nextId, a2.nextId);
    JoinedIsValid(g1, g2, a1.nextId, h);
    b := new Automaton.FromGraph(h, a1.nextId + a2.nextId + 1, false);
    forall w ensures h.Language(w) <==> g1.Language(w) || g2.Language(w) {
      JoinedLanguage(g1, g2, a1.nextId, h, w);
    }
  }
}
