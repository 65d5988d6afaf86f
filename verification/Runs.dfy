/** The words that an automaton can read, whether it accepts them or not. */
module Runs {
  import opened Languages

  /** Some run from q reads w. */
  ghost predicate HasRun(g: Graph, q: State, w: Word) {
    exists p :: g.Reaches(q, w, p)
  }

  /** The automaton with all states accepting: it accepts what the other can read. */
  ghost function Running(g: Graph): Graph {
    Graph(g.initial, g.trans.Keys, g.trans)
  }

  lemma {:induction false} RunningAccepts(g: Graph, q: State, w: Word)
    requires g.Valid() && q in g.trans
    ensures Running(g).Accepts(q, w) <==> HasRun(g, q, w)
    decreases |w|
  {
    if w == [] {
      assert g.Reaches(q, [], q);
    } else {
      assert Running(g).Succ(q, w[0]) == g.Succ(q, w[0]);
      forall r | r in g.Succ(q, w[0]) ensures Running(g).Accepts(r, w[1..]) <==> HasRun(g, r, w[1..]) {
        RunningAccepts(g, r, w[1..]);
      }
      if r :| r in g.Succ(q, w[0]) && HasRun(g, r, w[1..]) {
        var p :| g.Reaches(r, w[1..], p);
        assert g.Reaches(q, w, p);
      }
      if p :| g.Reaches(q, w, p) {
        var r :| r in g.Succ(q, w[0]) && g.Reaches(r, w[1..], p);
        assert HasRun(g, r, w[1..]);
      }
    }
  }

  lemma RunningIsValid(g: Graph)
    requires g.Valid()
    ensures Running(g).Valid() && (g.Deterministic() ==> Running(g).Deterministic())
  {
  }

  /** The two states accept and read the same words. */
  ghost predicate Alike(g: Graph, q: State, p: State) {
    g.SameRight(q, p) && Running(g).SameRight(q, p)
  }

  /** No two reachable states accept and read the same words. */
  ghost predicate Distinct(g: Graph) {
    forall q, p {:trigger Alike(g, q, p)} :: g.Reachable(q) && g.Reachable(p) && Alike(g, q, p) ==> q == p
  }

  /** Only one of the states accepts w, or only one can read it. */
  ghost predicate TellsApart(g: Graph, q: State, p: State, w: Word) {
    g.Accepts(q, w) != g.Accepts(p, w) || HasRun(g, q, w) != HasRun(g, p, w)
  }

  lemma DistinctAreToldApart(g: Graph)
    requires g.Valid() && Distinct(g)
    ensures forall q, p {:trigger g.Reachable(q), g.Reachable(p)} ::
        g.Reachable(q) && g.Reachable(p) && q != p ==> exists w :: TellsApart(g, q, p, w)
  {
    forall q, p | g.Reachable(q) && g.Reachable(p) && q != p ensures exists w :: TellsApart(g, q, p, w) {
      assert Closed(g, g.trans.Keys);
      if w :| g.Accepts(q, w) != g.Accepts(p, w) {
        assert TellsApart(g, q, p, w);
      } else {
        assert !Alike(g, q, p);
        var w :| Running(g).Accepts(q, w) != Running(g).Accepts(p, w);
        RunningAccepts(g, q, w);
        RunningAccepts(g, p, w);
        assert TellsApart(g, q, p, w);
      }
    }
  }
}
