/** The teacher: certifies a winning set or adds a counterexample to the sample. */
module Teachers {
  import opened Languages
  import opened Automata
  import opened Encoding
  import opened Games
  import opened Samples
  import Examples
  import Products
  import Unions

  /** The image of a transducer on an automaton, taken as exact: the words with an edge into the language. */
  ghost predicate ExactPre(pre: Graph -> Graph, edge: (Word, Word) -> bool) {
    forall g: Graph {:trigger pre(g)} :: g.Valid() ==>
      pre(g).Valid() && forall u {:trigger pre(g).Language(u)} :: pre(g).Language(u) <==>
        exists v :: g.Language(v) && edge(u, v)
  }

  /** The image of a single word: its successors, spelled with single letters of the alphabet. */
  ghost predicate ExactPost(post: Word -> Graph, edge: (Word, Word) -> bool, alphabet: seq<Char>) {
    forall u: Word {:trigger post(u)} ::
      && ReadableOver(alphabet, post(u)) && SingleLabels(post(u))
      && forall v {:trigger post(u).Language(v)} :: post(u).Language(v) <==> edge(u, v)
  }

  /** A safety game given by automata, its edges by the images of a transducer. */
  class SafetyProblem {
    const alphabet: seq<Char>
    const aV0: Automaton
    const aV1: Automaton
    const aI: Automaton
    const aF: Automaton
    const pre: Graph -> Graph
    const post: Word -> Graph
    ghost const game: Game

    constructor (alphabet: seq<Char>, aV0: Automaton, aV1: Automaton, aI: Automaton, aF: Automaton, pre: Graph -> Graph,
        post: Word -> Graph, ghost edge: (Word, Word) -> bool)
      requires aV0.Clean() && aV1.Clean() && aI.Clean() && aF.Clean() && ExactPre(pre, edge)
          && ExactPost(post, edge, alphabet)
      ensures Valid() && this.alphabet == alphabet && this.aV0 == aV0 && this.aV1 == aV1 && this.aI == aI
          && this.aF == aF
      ensures this.pre == pre && this.post == post && game.edge == edge
    {
      this.alphabet, this.aV0, this.aV1, this.aI, this.aF, this.pre, this.post := alphabet, aV0, aV1, aI, aF, pre, post;
      this.game := Game(aV0.Snapshot(), aV1.Snapshot(), aI.Snapshot(), aF.Snapshot(), edge);
    }

    /** The automata are those of the game and the images are exact. */
    ghost predicate Valid()
      reads aV0, aV1, aI, aF
    {
      && aV0.Clean() && aV1.Clean() && aI.Clean() && aF.Clean()
      && aV0.Snapshot() == game.v0 && aV1.Snapshot() == game.v1 && aI.Snapshot() == game.start
           && aF.Snapshot() == game.safe
      && ExactPre(pre, game.edge) && ExactPost(post, game.edge, alphabet)
    }
  }

  ghost function LanguageOf(g: Graph): Language {
    w => g.Language(w)
  }

  class Teacher {
    const sp: SafetyProblem

    constructor (sp: SafetyProblem)
      ensures this.sp == sp
    {
      this.sp := sp;
    }

    /** Initial vertices: the first missing one, if any. */
    method CheckInitial(cdfa: Automaton, ghost g: Graph) returns (r: Examples.Best)
      requires sp.Valid() && cdfa.Clean() && cdfa.Snapshot() == g
      ensures r.None? ==> forall u :: sp.game.start.Language(u) ==> g.Language(u)
      ensures r.Some? ==> Earliest(sp.game, LanguageOf(g), Positive(r.word))
    {
      var a1 := Products.Minus(sp.aI, cdfa);
      ghost var d := a1.Snapshot();
      assert forall u :: d.Language(u) <==> sp.game.start.Language(u) && !g.Language(u);
      r := AnExample(a1, d);
    }

    /** Safe vertices: the first unsafe one, if any. */
    method CheckSafe(cdfa: Automaton, ghost g: Graph) returns (r: Examples.Best)
      requires sp.Valid() && cdfa.Clean() && cdfa.Snapshot() == g
      ensures r.None? ==> forall u :: g.Language(u) ==> sp.game.safe.Language(u)
      ensures r.Some? ==> Earliest(sp.game, LanguageOf(g), Negative(r.word))
    {
      var a2 := Products.Minus(cdfa, sp.aF);
      ghost var d := a2.Snapshot();
      assert forall u :: d.Language(u) <==> g.Language(u) && !sp.game.safe.Language(u);
      r := AnExample(a2, d);
    }

    /** Existential closure: the first vertex of player 0 that cannot stay, if any. */
    method CheckExistential(cdfa: Automaton, ghost g: Graph) returns (r: Examples.Best)
      requires sp.Valid() && cdfa.Clean() && cdfa.Snapshot() == g
      ensures r.None? ==> forall u :: g.Language(u) && sp.game.v0.Language(u) ==> CanStay(sp.game, LanguageOf(g), u)
      ensures r.Some? ==> Earliest(sp.game, LanguageOf(g), Existential(CounterExample(r.word, sp.post(r.word))))
    {
      assert sp.pre(g).Valid();
      var a3a := Wrap(sp.pre(cdfa.Snapshot()));
      ghost var before := a3a.Snapshot();
      var a3b := Products.Minus(sp.aV0, a3a);
      ghost var stuck := a3b.Snapshot();
      assert forall u :: stuck.Language(u) <==> sp.game.v0.Language(u) && !before.Language(u);
      var a3c := Products.Intersection(cdfa, a3b);
      ghost var d := a3c.Snapshot();
      assert forall u :: d.Language(u) <==> g.Language(u) && stuck.Language(u);
      r := AnExample(a3c, d);
      CanStayIsImage(sp, g);
    }

    /** Universal closure: the first vertex of player 1 with an edge to a vertex out of the conjecture, if any. */
    method CheckUniversal(cdfa: Automaton, ghost g: Graph) returns (r: Examples.Best)
      requires sp.Valid() && cdfa.Clean() && cdfa.Snapshot() == g
      ensures r.None? ==> forall u :: g.Language(u) && sp.game.v1.Language(u) ==> !CanLeave(sp.game, LanguageOf(g), u)
      ensures r.Some? ==> Earliest(sp.game, LanguageOf(g), Universal(CounterExample(r.word, sp.post(r.word))))
    {
      var a4c, d := Leaving(cdfa, g);
      r := AnExample(a4c, d);
    }

    /** The conjectured vertices of player 1 with an edge to a vertex out of the conjecture. */
    method Leaving(cdfa: Automaton, ghost g: Graph) returns (a4c: Automaton, ghost d: Graph)
      requires sp.Valid() && cdfa.Clean() && cdfa.Snapshot() == g
      ensures fresh(a4c) && a4c.Clean() && a4c.Snapshot() == d
      ensures forall u :: d.Language(u) <==>
          g.Language(u) && sp.game.v1.Language(u) && CanLeave(sp.game, LanguageOf(g), u)
    {
      var a4a, outside := Outside(cdfa, g);
      assert sp.pre(outside).Valid();
      var a4b := Wrap(sp.pre(a4a.Snapshot()));
      ghost var before := a4b.Snapshot();
      var mine := Products.Intersection(sp.aV1, cdfa);
      ghost var m := mine.Snapshot();
      assert forall u :: m.Language(u) <==> sp.game.v1.Language(u) && g.Language(u);
      a4c := Products.Intersection(mine, a4b);
      d := a4c.Snapshot();
      assert forall u :: d.Language(u) <==> m.Language(u) && before.Language(u);
      CanLeaveIsImage(sp, g, outside);
    }

    /** The vertices that are not conjectured. */
    method Outside(cdfa: Automaton, ghost g: Graph) returns (a: Automaton, ghost outside: Graph)
      requires sp.Valid() && cdfa.Clean() && cdfa.Snapshot() == g
      ensures fresh(a) && a.Valid() && a.Snapshot() == outside
      ensures forall u :: outside.Language(u) <==> sp.game.Vertex(u) && !g.Language(u)
    {
      var vertices := Unions.Union(sp.aV0, sp.aV1);
      ghost var all := vertices.Snapshot();
      assert forall u :: all.Language(u) <==> sp.game.Vertex(u);
      a := Products.Minus(vertices, cdfa);
      outside := a.Snapshot();
    }

    /** A failed check has added its counterexample, unless the sample had it already. */
    twostate predicate Told(s: Sample, g: Graph, e: Evidence)
      reads s
    {
      && FirstFailure(sp.game, LanguageOf(g), e) && Earliest(sp.game, LanguageOf(g), e) && Legible(sp, e)
      && if Present(old(s.Data()), e) then s.Data() == old(s.Data()) && s.size == old(s.size)
           else s.Data() == With(old(s.Data()), e) && s.size == old(s.size) + 1
    }

    /** The first two checks: initial and safe vertices. */
    method CheckVertices(cdfa: Automaton, s: Sample, ghost g: Graph) returns (r: bool, ghost e: Evidence)
      requires sp.Valid() && cdfa.Clean() && cdfa.Snapshot() == g && s.Valid()
      modifies s
      ensures s.Valid()
      ensures r ==> s.Data() == old(s.Data()) && s.size == old(s.size)
      ensures r ==> (forall u :: sp.game.start.Language(u) ==> g.Language(u)) && forall u :: g.Language(u) ==>
          sp.game.safe.Language(u)
      ensures !r ==> Told(s, g, e)
    {
      e := Positive([]);
      var a1 := CheckInitial(cdfa, g);
      if a1.Some? {
        s.AddPos(a1.word);
        return false, Positive(a1.word);
      }
      var a2 := CheckSafe(cdfa, g);
      if a2.Some? {
        s.AddNeg(a2.word);
        return false, Negative(a2.word);
      }
      r := true;
    }

    /** The last two checks: existential and universal closure. */
    method CheckClosure(cdfa: Automaton, s: Sample, ghost g: Graph) returns (r: bool, ghost e: Evidence)
      requires sp.Valid() && cdfa.Clean() && cdfa.Snapshot() == g && s.Valid()
      requires (forall u :: sp.game.start.Language(u) ==> g.Language(u)) && forall u :: g.Language(u) ==>
          sp.game.safe.Language(u)
      modifies s
      ensures s.Valid()
      ensures r ==> s.Data() == old(s.Data()) && s.size == old(s.size)
      ensures r ==> forall u :: g.Language(u) && sp.game.v0.Language(u) ==> CanStay(sp.game, LanguageOf(g), u)
      ensures r ==> forall u :: g.Language(u) && sp.game.v1.Language(u) ==> !CanLeave(sp.game, LanguageOf(g), u)
      ensures !r ==> Told(s, g, e)
    {
      r, e := CloseExistential(cdfa, s, g);
      if r {
        r, e := CloseUniversal(cdfa, s, g);
      }
    }

    method CloseExistential(cdfa: Automaton, s: Sample, ghost g: Graph) returns (r: bool, ghost e: Evidence)
      requires sp.Valid() && cdfa.Clean() && cdfa.Snapshot() == g && s.Valid()
      requires (forall u :: sp.game.start.Language(u) ==> g.Language(u)) && forall u :: g.Language(u) ==>
          sp.game.safe.Language(u)
      modifies s
      ensures s.Valid()
      ensures r ==> s.Data() == old(s.Data()) && s.size == old(s.size)
      ensures r ==> forall u :: g.Language(u) && sp.game.v0.Language(u) ==> CanStay(sp.game, LanguageOf(g), u)
      ensures !r ==> Told(s, g, e)
    {
      e := Positive([]);
      var a3c := CheckExistential(cdfa, g);
      if a3c.Some? {
        var u := a3c.word;
        s.AddEx(u, sp.post(u));
        return false, Existential(CounterExample(u, sp.post(u)));
      }
      r := true;
    }

    method CloseUniversal(cdfa: Automaton, s: Sample, ghost g: Graph) returns (r: bool, ghost e: Evidence)
      requires sp.Valid() && cdfa.Clean() && cdfa.Snapshot() == g && s.Valid()
      requires (forall u :: sp.game.start.Language(u) ==> g.Language(u)) && forall u :: g.Language(u) ==>
          sp.game.safe.Language(u)
      requires forall u :: g.Language(u) && sp.game.v0.Language(u) ==> CanStay(sp.game, LanguageOf(g), u)
      modifies s
      ensures s.Valid()
      ensures r ==> s.Data() == old(s.Data()) && s.size == old(s.size)
      ensures r ==> forall u :: g.Language(u) && sp.game.v1.Language(u) ==> !CanLeave(sp.game, LanguageOf(g), u)
      ensures !r ==> Told(s, g, e)
    {
      e := Positive([]);
      var a4c := CheckUniversal(cdfa, g);
      if a4c.Some? {
        var u := a4c.word;
        s.AddUni(u, sp.post(u));
        return false, Universal(CounterExample(u, sp.post(u)));
      }
      r := true;
    }

    /** Performs the four checks in order. Returns true exactly when the conjecture passes them all; otherwise the
        sample has a counterexample, made of the first check that failed and of the first vertex at which it fails,
        unless it had it already. */
    method CheckIfWinningSet(cdfa: Automaton, s: Sample, ghost g: Graph) returns (r: bool, ghost e: Evidence)
      requires sp.Valid() && cdfa.Clean() && cdfa.Snapshot() == g && s.Valid()
      modifies s
      ensures s.Valid()
      ensures r <==> Passes(sp.game, LanguageOf(g))
      ensures r ==> s.Data() == old(s.Data()) && s.size == old(s.size)
      ensures !r ==> Told(s, g, e)
    {
      r, e := CheckVertices(cdfa, s, g);
      if r {
        r, e := CheckClosure(cdfa, s, g);
      }
      if r {
        forall u, v | g.Language(u) && sp.game.v1.Language(u) && sp.game.edge(u, v) && sp.game.Vertex(v)
            ensures g.Language(v)
        {
          assert !CanLeave(sp.game, LanguageOf(g), u);
        }
      } else {
        FailureRefutes(sp.game, LanguageOf(g), e);
      }
    }
  }

  /** The consequences are the image of the antecedent, spelled with single letters. */
  ghost predicate Legible(sp: SafetyProblem, e: Evidence) {
    match e
    case Positive(u) => true
    case Negative(u) => true
    case Existential(c) => c.a == sp.post(c.u) && ReadableOver(sp.alphabet, c.a) && SingleLabels(c.a)
    case Universal(c) => c.a == sp.post(c.u) && ReadableOver(sp.alphabet, c.a) && SingleLabels(c.a)
  }

  lemma CanStayIsImage(sp: SafetyProblem, g: Graph)
    requires ExactPre(sp.pre, sp.game.edge) && g.Valid()
    ensures forall u :: CanStay(sp.game, LanguageOf(g), u) <==> sp.pre(g).Language(u)
  {
    assert sp.pre(g).Valid();
    forall u ensures CanStay(sp.game, LanguageOf(g), u) <==> sp.pre(g).Language(u) {
      if CanStay(sp.game, LanguageOf(g), u) {
        var v :| sp.game.edge(u, v) && LanguageOf(g)(v);
        assert g.Language(v);
      }
      if sp.pre(g).Language(u) {
        var v :| g.Language(v) && sp.game.edge(u, v);
        assert LanguageOf(g)(v);
      }
    }
  }

  lemma CanLeaveIsImage(sp: SafetyProblem, g: Graph, outside: Graph)
    requires ExactPre(sp.pre, sp.game.edge) && outside.Valid() && forall u :: outside.Language(u) <==>
        sp.game.Vertex(u) && !g.Language(u)
    ensures forall u :: CanLeave(sp.game, LanguageOf(g), u) <==> sp.pre(outside).Language(u)
  {
    assert sp.pre(outside).Valid();
    forall u ensures CanLeave(sp.game, LanguageOf(g), u) <==> sp.pre(outside).Language(u) {
      if CanLeave(sp.game, LanguageOf(g), u) {
        var v :| sp.game.edge(u, v) && sp.game.Vertex(v) && !LanguageOf(g)(v);
        assert outside.Language(v);
      }
      if sp.pre(outside).Language(u) {
        var v :| outside.Language(v) && sp.game.edge(u, v);
        assert sp.game.Vertex(v) && !LanguageOf(g)(v);
      }
    }
  }

  /** isEmpty, and the first of the shortest examples when it is not. */
  method AnExample(a: Automaton, ghost g: Graph) returns (r: Examples.Best)
    requires a.Clean() && a.Snapshot() == g
    ensures r.None? <==> forall w :: !g.Language(w)
    ensures r.Some? ==> g.Language(r.word) && forall w :: g.Language(w) ==> Examples.ComesFirst(r.word, w)
  {
    var empty := Products.IsEmpty(a);
    assert a.Snapshot() == g;
    if empty {
      return Examples.None;
    }
    r := Examples.GetShortestExample(a.Snapshot());
    assert a.Snapshot() == g;
  }
}
