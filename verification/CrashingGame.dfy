/** A game that can be won and on which the learner crashes. */
module CrashingGames {
  import opened Languages
  import opened Automata
  import opened Equivalence
  import opened Encoding
  import opened Learners
  import opened Games
  import opened Teachers
  import opened Solving
  import opened Bounds

  /** All words, with one state. */
  const EVERYTHING: Graph := Graph(0, {0}, map[0 := {Transition(MIN_CHAR, MAX_CHAR, 0)}])

  const NOTHING: Graph := Graph(0, {}, map[0 := {}])

  /** The only initial vertex is "a", with an edge to itself; every word is a safe vertex of player 0. */
  predicate Loop(u: Word, v: Word) {
    u == [97] && v == [97]
  }

  function Successors(u: Word): Graph {
    if u == [97] then WORD_A else NOTHING
  }

  function Predecessors(g: Graph): Graph {
    if g.SuccSet({g.initial}, 97) * g.accept != {} then WORD_A else NOTHING
  }

  /** The automaton for the winning set {"a"}. */
  const JUST_A: Table := Table(1, [[1], [2], [2]], [false, true, false])

  lemma EverythingAccepted(w: Word)
    ensures EVERYTHING.Accepts(0, w)
  {
    if w != [] {
      EverythingAccepted(w[1..]);
      assert Transition(MIN_CHAR, MAX_CHAR, 0) in EVERYTHING.Out(0) && Transition(MIN_CHAR, MAX_CHAR, 0).Covers(w[0]);
      assert 0 in EVERYTHING.Succ(0, w[0]);
    }
  }

  lemma WordALanguage(w: Word)
    ensures WORD_A.Language(w) <==> w == [97]
    ensures !NOTHING.Language(w)
  {
    var e := Transition(97, 97, 1);
    if w != [] {
      forall p ensures p in WORD_A.Succ(0, w[0]) <==> w[0] == 97 && p == 1 {
        assert WORD_A.Out(0) == {e};
        if w[0] == 97 {
          assert e in WORD_A.Out(0) && e.Covers(97);
        }
      }
      if w[1..] != [] {
        assert WORD_A.Succ(1, w[1..][0]) == {};
      }
      assert WORD_A.Accepts(1, w[1..]) <==> w[1..] == [];
      assert NOTHING.Succ(0, w[0]) == {};
    }
  }

  lemma AcceptsA(g: Graph)
    ensures g.Language([97]) <==> g.SuccSet({g.initial}, 97) * g.accept != {}
  {
    var w: Word := [97];
    assert w[1..] == [] && w[0] == 97;
    if g.Language(w) {
      var p :| p in g.Succ(g.initial, 97) && g.Accepts(p, w[1..]);
      assert p in g.SuccSet({g.initial}, 97) * g.accept;
    }
    if p :| p in g.SuccSet({g.initial}, 97) * g.accept {
      assert p in g.Succ(g.initial, 97) && g.Accepts(p, w[1..]);
    }
  }

  lemma ImagesAreExact()
    ensures ExactPre(Predecessors, Loop) && ExactPost(Successors, Loop, ONE_LETTER)
  {
    WordAStates();
    forall g: Graph | g.Valid() ensures Predecessors(g).Valid() && forall u :: Predecessors(g).Language(u) <==>
        exists v :: g.Language(v) && Loop(u, v)
    {
      AcceptsA(g);
      forall u ensures Predecessors(g).Language(u) <==> exists v :: g.Language(v) && Loop(u, v) {
        WordALanguage(u);
        if u == [97] && g.Language([97]) {
          assert Loop(u, [97]);
        }
      }
    }
    forall u: Word ensures ReadableOver(ONE_LETTER, Successors(u)) && SingleLabels(Successors(u)) && forall v ::
        Successors(u).Language(v) <==> Loop(u, v)
    {
      forall v ensures Successors(u).Language(v) <==> Loop(u, v) {
        WordALanguage(v);
      }
    }
  }

  lemma ImagesAreClean(u: Word)
    ensures Successors(u).NoDeadTransitions()
  {
    assert WORD_A.Accepts(1, []);
  }

  lemma JustAHolds(w: Word)
    ensures JUST_A.Valid() && (Encoding.Holds(ONE_LETTER, JUST_A, w) <==> w == [97])
  {
    var t := JUST_A;
    forall q, row | 0 <= q < 3 && row == t.next[q] ensures |row| == 1 {}
    if Over(ONE_LETTER, w) {
      var u := Encode(ONE_LETTER, w);
      forall i | 0 <= i < |w| ensures w[i] == 97 && u[i] == 0 {
        assert w[i] in ONE_LETTER;
      }
      JustARun(u);
      assert |w| == 1 ==> w == [97];
    }
    if w == [97] {
      assert forall i :: 0 <= i < |w| ==> w[i] in ONE_LETTER by {
        assert ONE_LETTER[0] == 97;
      }
    }
  }

  lemma JustARun(u: PrefixTrees.Letters)
    requires forall i :: 0 <= i < |u| ==> u[i] == 0
    ensures JUST_A.Accepts(0, u) <==> |u| == 1
  {
    SinkRun(u);
    if u != [] {
      SinkRun(u[1..]);
      if u[1..] != [] {
        SinkRun(u[1..][1..]);
      }
    }
  }

  lemma {:induction false} SinkRun(u: PrefixTrees.Letters)
    requires forall i :: 0 <= i < |u| ==> u[i] == 0
    ensures !JUST_A.Accepts(2, u)
    decreases |u|
  {
    if u != [] {
      SinkRun(u[1..]);
    }
  }

  /** {"a"} wins, and is recognized by an automaton with three states. */
  lemma JustAWins(g: Game)
    requires g == Game(EVERYTHING, NOTHING, WORD_A, EVERYTHING, Loop)
    ensures Winning(g, LanguageOfTable(ONE_LETTER, JUST_A)) && g.EdgesInside()
  {
    var w := LanguageOfTable(ONE_LETTER, JUST_A);
    forall u ensures (w(u) <==> u == [97]) && g.safe.Language(u) && g.v0.Language(u) && !g.v1.Language(u)
        && (g.start.Language(u) <==> u == [97])
    {
      JustAHolds(u);
      EverythingAccepted(u);
      WordALanguage(u);
    }
    assert Loop([97], [97]) && w([97]);
  }

  lemma CleanParts()
    ensures EVERYTHING.Valid() && NOTHING.Valid() && WORD_A.Valid()
    ensures EVERYTHING.NoDeadTransitions() && NOTHING.NoDeadTransitions() && WORD_A.NoDeadTransitions()
    ensures EVERYTHING.Reduced() && NOTHING.Reduced() && WORD_A.Reduced()
  {
    EverythingAccepted([]);
    assert WORD_A.Accepts(1, []);
  }

  method MakeGame() returns (sp: SafetyProblem)
    ensures sp.Valid() && sp.alphabet == ONE_LETTER && sp.game == Game(EVERYTHING, NOTHING, WORD_A, EVERYTHING, Loop)
        && sp.post == Successors
  {
    CleanParts();
    ImagesAreExact();
    var everything := new Automaton.FromGraph(EVERYTHING, 1, false);
    var nothing := new Automaton.FromGraph(NOTHING, 1, false);
    var start := new Automaton.FromGraph(WORD_A, 2, false);
    sp := new SafetyProblem(ONE_LETTER, everything, nothing, start, everything, Predecessors, Successors, Loop);
  }

  /** The crash, on a game with a winning set that an automaton recognizes: the vertex "" of player 0 is stuck and every
      word is safe. */
  method CrashingGame(solve: Solver) returns (sp: SafetyProblem, r: Outcome<Automaton>)
    requires Exact(solve)
    ensures Solvable(sp, JUST_A) && r.IndexOutOfBounds?
  {
    sp := MakeDoomedGame();
    r := SolveDoomed(sp, solve, JUST_A);
  }

  method SolveDoomed(sp: SafetyProblem, solve: Solver, ghost target: Table) returns (r: Outcome<Automaton>)
    requires Exact(solve) && Solvable(sp, target) && Doomed(sp)
    ensures r.IndexOutOfBounds?
  {
    ghost var conjectures, steps, sample;
    r, conjectures, steps, sample := Solve(sp, solve, target);
  }

  method MakeDoomedGame() returns (sp: SafetyProblem)
    ensures Solvable(sp, JUST_A) && Doomed(sp)
  {
    sp := MakeGame();
    JustAWins(sp.game);
    JustAHolds([]);
    GameIsDoomed(sp);
  }

  lemma GameIsDoomed(sp: SafetyProblem)
    requires sp.alphabet == ONE_LETTER && sp.game == Game(EVERYTHING, NOTHING, WORD_A, EVERYTHING, Loop)
        && sp.post == Successors
    ensures Doomed(sp)
  {
    forall u ensures sp.game.safe.Language(u) && sp.game.v0.Language(u) {
      EverythingAccepted(u);
    }
    assert Over(sp.alphabet, []) && IsStuck(sp, []);
    WordALanguage([97]);
    assert sp.game.start.Language([97]);
    forall u ensures sp.post(u).NoDeadTransitions() {
      ImagesAreClean(u);
    }
  }
}
