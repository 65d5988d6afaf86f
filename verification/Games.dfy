/** Safety games over words: winning sets, the counterexamples they obey, and what a winning set is good for. */
module Games {
  import opened Languages
  import opened Encoding
  import Examples

  type Language = Word -> bool

  /** The vertices of both players, the initial and the safe vertices, and the edges. */
  datatype Game = Game(v0: Graph, v1: Graph, start: Graph, safe: Graph, edge: (Word, Word) -> bool) {
    ghost predicate Vertex(u: Word) {
      v0.Language(u) || v1.Language(u)
    }

    ghost predicate EdgesInside() {
      forall u, v {:trigger edge(u, v)} :: edge(u, v) ==> Vertex(u) && Vertex(v)
    }
  }

  /** The initial vertices are in, the others are safe, player 0 can stay and player 1 cannot leave. */
  ghost predicate Winning(g: Game, w: Language) {
    && (forall u {:trigger w(u)} :: g.start.Language(u) ==> w(u))
    && (forall u {:trigger w(u)} :: w(u) ==> g.safe.Language(u))
    && (forall u {:trigger CanStay(g, w, u)} :: w(u) && g.v0.Language(u) ==> CanStay(g, w, u))
    && (forall u, v {:trigger g.edge(u, v)} :: w(u) && g.v1.Language(u) && g.edge(u, v) ==> w(v))
  }

  ghost predicate CanStay(g: Game, w: Language, u: Word) {
    exists v :: g.edge(u, v) && w(v)
  }

  /** What the four checks of the teacher test: player 1 is only kept from leaving for a vertex of the game. */
  ghost predicate Passes(g: Game, w: Language) {
    && (forall u {:trigger w(u)} :: g.start.Language(u) ==> w(u))
    && (forall u {:trigger w(u)} :: w(u) ==> g.safe.Language(u))
    && (forall u {:trigger CanStay(g, w, u)} :: w(u) && g.v0.Language(u) ==> CanStay(g, w, u))
    && (forall u, v {:trigger g.edge(u, v)} :: w(u) && g.v1.Language(u) && g.edge(u, v) && g.Vertex(v) ==> w(v))
  }

  lemma PassesIsWinning(g: Game, w: Language)
    requires g.EdgesInside()
    ensures Passes(g, w) <==> Winning(g, w)
  {
  }

  // ----- plays -----

  /** A memoryless strategy that stays in the winning set. */
  ghost function Stay(g: Game, w: Language): Word -> Word
    requires Winning(g, w)
  {
    u => if w(u) && g.v0.Language(u) then Move(g, w, u) else u
  }

  ghost function Move(g: Game, w: Language, u: Word): (v: Word)
    requires Winning(g, w) && w(u) && g.v0.Language(u)
    ensures g.edge(u, v) && w(v)
  {
    assert CanStay(g, w, u);
    var v :| g.edge(u, v) && w(v);
    v
  }

  /** The play starts in an initial vertex and player 0 moves by the strategy. An infinite play; MovesBy bounds finite
      ones. */
  ghost predicate MovesBy(g: Game, strategy: Word -> Word, play: nat -> Word, n: nat) {
    && g.start.Language(play(0))
    && forall i: nat {:trigger play(i)} :: i < n ==> g.edge(play(i), play(i + 1)) && (g.v0.Language(play(i)) ==>
         play(i + 1) == strategy(play(i)))
  }

  /** Every finite beginning of every play by the strategy stays in the winning set, so in the safe vertices,
      and the strategy always has a move along an edge. Infinite plays are those for which this holds at every n. */
  lemma {:induction false} WinningIsSafe(g: Game, w: Language, play: nat -> Word, n: nat)
    requires Winning(g, w) && g.EdgesInside() && MovesBy(g, Stay(g, w), play, n)
    ensures w(play(n)) && g.safe.Language(play(n))
    ensures g.v0.Language(play(n)) ==> g.edge(play(n), Stay(g, w)(play(n)))
    decreases n
  {
    if n > 0 {
      WinningIsSafe(g, w, play, n - 1);
      assert g.edge(play(n - 1), play(n - 1 + 1));
    }
  }

  /** Vertices that some play by the strategy visits. */
  ghost predicate Visited(g: Game, strategy: Word -> Word, u: Word) {
    exists play, n: nat :: MovesBy(g, strategy, play, n) && play(n) == u
  }

  /** The strategy keeps every visited vertex safe and always has a move. */
  ghost predicate Keeps(g: Game, strategy: Word -> Word) {
    forall u {:trigger Visited(g, strategy, u)} :: Visited(g, strategy, u) ==>
      g.safe.Language(u) && (g.v0.Language(u) ==> g.edge(u, strategy(u)))
  }

  lemma VisitedNext(g: Game, strategy: Word -> Word, u: Word, v: Word)
    requires Visited(g, strategy, u) && g.edge(u, v) && (g.v0.Language(u) ==> v == strategy(u))
    ensures Visited(g, strategy, v)
  {
    var play, n: nat :| MovesBy(g, strategy, play, n) && play(n) == u;
    var longer := (i: nat) => if i <= n then play(i) else v;
    forall i: nat | i < n + 1 ensures g.edge(longer(i), longer(i + 1)) && (g.v0.Language(longer(i)) ==>
        longer(i + 1) == strategy(longer(i)))
    {
      assert play(i) == longer(i);
    }
    assert MovesBy(g, strategy, longer, n + 1) && longer(n + 1) == v;
  }

  /** Player 0 has a memoryless strategy that keeps the game safe exactly when there is a winning set. */
  lemma WinningIffStrategy(g: Game)
    requires g.EdgesInside() && forall u :: !(g.v0.Language(u) && g.v1.Language(u))
    ensures (exists w :: Winning(g, w)) <==> exists strategy :: Keeps(g, strategy)
  {
    if w :| Winning(g, w) {
      var strategy := Stay(g, w);
      forall u | Visited(g, strategy, u) ensures g.safe.Language(u) && (g.v0.Language(u) ==> g.edge(u, strategy(u))) {
        var play, n: nat :| MovesBy(g, strategy, play, n) && play(n) == u;
        WinningIsSafe(g, w, play, n);
      }
      assert Keeps(g, strategy);
    }
    if strategy :| Keeps(g, strategy) {
      var w: Language := u => Visited(g, strategy, u);
      forall u | g.start.Language(u) ensures w(u) {
        var play := (i: nat) => u;
        assert MovesBy(g, strategy, play, 0) && play(0) == u;
      }
      forall u | w(u) && g.v0.Language(u) ensures CanStay(g, w, u) {
        VisitedNext(g, strategy, u, strategy(u));
        assert g.edge(u, strategy(u)) && w(strategy(u));
      }
      forall u, v | w(u) && g.v1.Language(u) && g.edge(u, v) ensures w(v) {
        VisitedNext(g, strategy, u, v);
      }
      assert Winning(g, w);
    }
  }

  // ----- counterexamples -----

  datatype Evidence =
    | Positive(word: Word)
    | Negative(word: Word)
    | Existential(c: CounterExample)
    | Universal(c: CounterExample)

  ghost predicate Obeys(w: Language, e: Evidence) {
    match e
    case Positive(u) => w(u)
    case Negative(u) => !w(u)
    case Existential(c) => w(c.u) ==> exists v :: c.a.Language(v) && w(v)
    case Universal(c) => w(c.u) ==> forall v :: c.a.Language(v) ==> w(v)
  }

  ghost predicate ObeysAll(w: Language, s: SampleData) {
    && (forall u :: u in s.pos ==> w(u))
    && (forall u :: u in s.neg ==> !w(u))
    && (forall c {:trigger c in s.ex} :: c in s.ex ==> Obeys(w, Existential(c)))
    && (forall c {:trigger c in s.uni} :: c in s.uni ==> Obeys(w, Universal(c)))
  }

  function With(s: SampleData, e: Evidence): SampleData {
    match e
    case Positive(u) => s.(pos := s.pos + [u])
    case Negative(u) => s.(neg := s.neg + [u])
    case Existential(c) => s.(ex := s.ex + [c])
    case Universal(c) => s.(uni := s.uni + [c])
  }

  /** The sample holds the counterexample already; automata with the same language count as the same. */
  ghost predicate Present(s: SampleData, e: Evidence) {
    match e
    case Positive(u) => u in s.pos
    case Negative(u) => u in s.neg
    case Existential(c) => exists d :: d in s.ex && d.u == c.u && SameLanguage(d.a, c.a)
    case Universal(c) => exists d :: d in s.uni && d.u == c.u && SameLanguage(d.a, c.a)
  }

  lemma ObeysWith(w: Language, s: SampleData, e: Evidence)
    ensures ObeysAll(w, With(s, e)) <==> ObeysAll(w, s) && Obeys(w, e)
  {
    match e
    case Positive(u) =>
      assert forall v :: v in With(s, e).pos <==> v in s.pos || v == u;
      assert u in With(s, e).pos;
    case Negative(u) =>
      assert forall v :: v in With(s, e).neg <==> v in s.neg || v == u;
      assert u in With(s, e).neg;
    case Existential(c) =>
      assert forall d :: d in With(s, e).ex <==> d in s.ex || d == c;
      assert c in With(s, e).ex;
    case Universal(c) =>
      assert forall d :: d in With(s, e).uni <==> d in s.uni || d == c;
      assert c in With(s, e).uni;
  }

  lemma PresentIsObeyed(w: Language, s: SampleData, e: Evidence)
    requires ObeysAll(w, s) && Present(s, e)
    ensures Obeys(w, e)
  {
    match e
    case Positive(u) =>
    case Negative(u) =>
    case Existential(c) =>
      var d :| d in s.ex && d.u == c.u && SameLanguage(d.a, c.a);
      assert Obeys(w, Existential(d));
      if w(c.u) {
        var v :| d.a.Language(v) && w(v);
        assert c.a.Language(v);
      }
    case Universal(c) =>
      var d :| d in s.uni && d.u == c.u && SameLanguage(d.a, c.a);
      assert Obeys(w, Universal(d));
  }

  ghost predicate CanLeave(g: Game, w: Language, u: Word) {
    exists v :: g.edge(u, v) && g.Vertex(v) && !w(v)
  }

  /** How a check of the teacher fails on the conjecture w, and the counterexample made of it. */
  ghost predicate Fails(g: Game, w: Language, e: Evidence) {
    match e
    case Positive(u) => g.start.Language(u) && !w(u)
    case Negative(u) => w(u) && !g.safe.Language(u)
    case Existential(c) =>
      w(c.u) && g.v0.Language(c.u) && !CanStay(g, w, c.u) && forall v {:trigger c.a.Language(v)} :: c.a.Language(v) <==>
        g.edge(c.u, v)
    case Universal(c) =>
      w(c.u) && g.v1.Language(c.u) && CanLeave(g, w, c.u)
        && forall v {:trigger c.a.Language(v)} :: c.a.Language(v) <==> g.edge(c.u, v)
  }

  /** The checks are made in a fixed order: what fails is the first of them. */
  ghost predicate FirstFailure(g: Game, w: Language, e: Evidence) {
    && Fails(g, w, e)
    && (!e.Positive? ==> forall u {:trigger w(u)} :: g.start.Language(u) ==> w(u))
    && (e.Existential? || e.Universal? ==> forall u {:trigger w(u)} :: w(u) ==> g.safe.Language(u))
    && (e.Universal? ==> forall u {:trigger CanStay(g, w, u)} :: w(u) && g.v0.Language(u) ==> CanStay(g, w, u))
  }

  /** The vertices at which the same check fails. */
  ghost predicate FailsAlike(g: Game, w: Language, e: Evidence, u: Word) {
    match e
    case Positive(_) => g.start.Language(u) && !w(u)
    case Negative(_) => w(u) && !g.safe.Language(u)
    case Existential(_) => w(u) && g.v0.Language(u) && !CanStay(g, w, u)
    case Universal(_) => w(u) && g.v1.Language(u) && CanLeave(g, w, u)
  }

  ghost function WordOf(e: Evidence): Word {
    match e
    case Positive(u) => u
    case Negative(u) => u
    case Existential(c) => c.u
    case Universal(c) => c.u
  }

  /** The counterexample is the shortest vertex at which its check fails, and the first of those in the lexicographic
      order. */
  ghost predicate Earliest(g: Game, w: Language, e: Evidence) {
    && FailsAlike(g, w, e, WordOf(e))
    && forall u {:trigger FailsAlike(g, w, e, u)} :: FailsAlike(g, w, e, u) ==> Examples.ComesFirst(WordOf(e), u)
  }

  /** A counterexample refutes the conjecture it was made for ... */
  lemma FailureRefutes(g: Game, w: Language, e: Evidence)
    requires Fails(g, w, e)
    ensures !Obeys(w, e) && !Passes(g, w)
  {
    if e.Universal? {
      var v :| g.edge(e.c.u, v) && g.Vertex(v) && !w(v);
      assert e.c.a.Language(v);
    }
  }

  /** ... and holds for every winning set. */
  lemma FailureHoldsForWinning(g: Game, w: Language, e: Evidence, winning: Language)
    requires Fails(g, w, e) && Winning(g, winning)
    ensures Obeys(winning, e)
  {
    if e.Existential? && winning(e.c.u) {
      assert CanStay(g, winning, e.c.u);
      var v :| g.edge(e.c.u, v) && winning(v);
      assert e.c.a.Language(v);
    }
  }
}
