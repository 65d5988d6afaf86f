/** The learning loop: conjecture, check, and learn from the counterexample, until a winning set is found. */
module Solving {
  import opened Languages
  import opened Automata
  import opened Equivalence
  import opened Encoding
  import opened Learners
  import opened Games
  import opened Samples
  import opened Teachers
  import Bounds
  import opened Counting

  // ----- finitely many automata of one size -----

  ghost function AllSeqs<T>(s: set<T>, k: nat): set<seq<T>> {
    if k == 0 then {[]} else set x, r | x in s && r in AllSeqs(s, k - 1) :: [x] + r
  }

  lemma {:induction false} InAllSeqs<T>(s: set<T>, r: seq<T>)
    requires forall x :: x in r ==> x in s
    ensures r in AllSeqs(s, |r|)
    decreases |r|
  {
    if r != [] {
      InAllSeqs(s, r[1..]);
      assert r == [r[0]] + r[1..];
    }
  }

  ghost function AllTables(n: nat, letters: nat): set<Table> {
    set next, accept | next in AllSeqs(AllSeqs(Numbers(n), letters), n) && accept in AllSeqs({false, true}, n) ::
      Table(letters, next, accept)
  }

  lemma TableIsListed(t: Table, n: nat, letters: nat)
    requires IsDfa(t, n, letters)
    ensures t in AllTables(n, letters)
  {
    forall row | row in t.next ensures row in AllSeqs(Numbers(n), letters) {
      InAllSeqs(Numbers(n), row);
    }
    InAllSeqs(AllSeqs(Numbers(n), letters), t.next);
    forall b: bool | b in t.accept ensures b in {false, true} {
      assert b == true || b == false;
    }
    InAllSeqs({false, true}, t.accept);
  }

  /** The automata with n states that the learner may still conjecture. */
  ghost function Candidates(alphabet: seq<Char>, n: nat, s: SampleData): set<Table> {
    set t | t in AllTables(n, |alphabet|) && IsDfa(t, n, |alphabet|) && AgreesWithin(alphabet, t, s)
  }

  // ----- agreement, seen by the learner and by the teacher -----

  ghost function LanguageOfTable(alphabet: seq<Char>, t: Table): Language {
    w => t.Valid() && t.Size() > 0 && Encoding.Holds(alphabet, t, w)
  }

  ghost predicate Labelled(s: SampleData) {
    (forall c :: c in s.ex ==> SingleLabels(c.a)) && (forall c :: c in s.uni ==> SingleLabels(c.a))
  }

  ghost predicate Consistent(s: SampleData) {
    forall w :: w in s.pos ==> w !in s.neg
  }

  lemma AgreesIsObeying(alphabet: seq<Char>, t: Table, s: SampleData)
    requires t.Valid() && t.Size() > 0 && Labelled(s) && Consistent(s)
    ensures Agrees(alphabet, t, s) <==> ObeysAll(LanguageOfTable(alphabet, t), s)
  {
    var w := LanguageOfTable(alphabet, t);
    forall c | c in s.ex || c in s.uni ensures Read(c.a) == c.a {
      SingleLabelsAreRead(c.a);
    }
    if Agrees(alphabet, t, s) {
      forall c | c in s.ex ensures Obeys(w, Existential(c)) {
        if w(c.u) {
          var v :| Read(c.a).Language(v) && Encoding.Holds(alphabet, t, v);
          assert c.a.Language(v) && w(v);
        }
      }
      forall c | c in s.uni ensures Obeys(w, Universal(c)) {}
    }
    if ObeysAll(w, s) {
      forall c | c in s.ex && Encoding.Holds(alphabet, t, c.u)
          ensures exists v :: Read(c.a).Language(v) && Encoding.Holds(alphabet, t, v)
      {
        assert Obeys(w, Existential(c));
        var v :| c.a.Language(v) && w(v);
      }
      forall c, v | c in s.uni && Encoding.Holds(alphabet, t, c.u) && Read(c.a).Language(v)
          ensures Encoding.Holds(alphabet, t, v)
      {
        assert Obeys(w, Universal(c));
      }
    }
  }

  lemma SameLanguageObeysAlike(w: Language, v: Language, s: SampleData)
    requires (forall u :: w(u) <==> v(u)) && ObeysAll(w, s)
    ensures ObeysAll(v, s)
  {
    forall c | c in s.ex ensures Obeys(v, Existential(c)) {
      assert Obeys(w, Existential(c));
    }
    forall c | c in s.uni ensures Obeys(v, Universal(c)) {
      assert Obeys(w, Universal(c));
    }
  }

  // ----- the loop -----

  ghost predicate Differ(v: Language, w: Language) {
    exists u :: v(u) != w(u)
  }

  /** What the loop knows: the sample holds for the target and refutes every conjecture made so far. */
  ghost predicate Learning(alphabet: seq<Char>, target: Table, s: SampleData, conjectures: seq<Table>) {
    && SampleOver(alphabet, s) && Labelled(s) && ObeysAll(LanguageOfTable(alphabet, target), s)
    && (forall i {:trigger conjectures[i]} :: 0 <= i < |conjectures| ==>
         !ObeysAll(LanguageOfTable(alphabet, conjectures[i]), s))
    && (forall i, j {:trigger conjectures[i], conjectures[j]} :: 0 <= i < j < |conjectures| ==>
         Differ(LanguageOfTable(alphabet, conjectures[i]), LanguageOfTable(alphabet, conjectures[j])))
  }

  /** A conjecture that agrees with the sample is none of the earlier ones. */
  lemma NewLanguage(alphabet: seq<Char>, target: Table, s: SampleData, conjectures: seq<Table>, t: Table)
    requires Learning(alphabet, target, s, conjectures) && ObeysAll(LanguageOfTable(alphabet, t), s)
    ensures forall i {:trigger conjectures[i]} :: 0 <= i < |conjectures| ==>
        Differ(LanguageOfTable(alphabet, conjectures[i]), LanguageOfTable(alphabet, t))
  {
    forall i | 0 <= i < |conjectures|
        ensures Differ(LanguageOfTable(alphabet, conjectures[i]), LanguageOfTable(alphabet, t))
    {
      if !Differ(LanguageOfTable(alphabet, conjectures[i]), LanguageOfTable(alphabet, t)) {
        forall u ensures LanguageOfTable(alphabet, t)(u) <==> LanguageOfTable(alphabet, conjectures[i])(u) {}
        SameLanguageObeysAlike(LanguageOfTable(alphabet, t), LanguageOfTable(alphabet, conjectures[i]), s);
      }
    }
  }

  /** One failed check: the counterexample is new, keeps the target and refutes the conjecture. */
  lemma LearnMore(alphabet: seq<Char>, target: Table, s: SampleData, conjectures: seq<Table>, t: Table, e: Evidence)
    requires Learning(alphabet, target, s, conjectures) && ObeysAll(LanguageOfTable(alphabet, t), s)
    requires Obeys(LanguageOfTable(alphabet, target), e) && !Obeys(LanguageOfTable(alphabet, t), e)
    requires SampleOver(alphabet, With(s, e)) && Labelled(With(s, e))
    ensures !Present(s, e) && Learning(alphabet, target, With(s, e), conjectures + [t])
  {
    if Present(s, e) {
      PresentIsObeyed(LanguageOfTable(alphabet, t), s, e);
    }
    NewLanguage(alphabet, target, s, conjectures, t);
    ObeysWith(LanguageOfTable(alphabet, target), s, e);
    ObeysWith(LanguageOfTable(alphabet, t), s, e);
    forall i | 0 <= i < |conjectures| ensures !ObeysAll(LanguageOfTable(alphabet, conjectures[i]), With(s, e)) {
      ObeysWith(LanguageOfTable(alphabet, conjectures[i]), s, e);
    }
  }

  ghost predicate EvidenceOver(alphabet: seq<Char>, e: Evidence) {
    match e
    case Positive(u) => Over(alphabet, u)
    case Negative(u) => Over(alphabet, u)
    case Existential(c) => Over(alphabet, c.u) && ReadableOver(alphabet, c.a) && SingleLabels(c.a)
    case Universal(c) => Over(alphabet, c.u) && ReadableOver(alphabet, c.a) && SingleLabels(c.a)
  }

  lemma WithIsOver(alphabet: seq<Char>, s: SampleData, e: Evidence)
    requires SampleOver(alphabet, s) && Labelled(s) && EvidenceOver(alphabet, e)
    ensures SampleOver(alphabet, With(s, e)) && Labelled(With(s, e))
  {
  }

  /** The words of a counterexample are spelled with the alphabet: they are initial vertices or conjectured ones. */
  lemma FailureIsOver(sp: SafetyProblem, target: Language, w: Language, e: Evidence)
    requires Fails(sp.game, w, e) && Legible(sp, e)
    requires Winning(sp.game, target) && (forall u :: target(u) ==> Over(sp.alphabet, u)) && forall u :: w(u) ==>
        Over(sp.alphabet, u)
    ensures EvidenceOver(sp.alphabet, e)
  {
    assert e.Positive? ==> target(e.word);
  }

  lemma CandidatesShrink(alphabet: seq<Char>, n: nat, s: SampleData, e: Evidence, t: Table)
    requires IsDfa(t, n, |alphabet|) && AgreesWithin(alphabet, t, s) && !AgreesWithin(alphabet, t, With(s, e))
    requires e.Positive? ==> e.word !in s.neg
    ensures Candidates(alphabet, n, With(s, e)) < Candidates(alphabet, n, s)
  {
    TableIsListed(t, n, |alphabet|);
    forall u | u in Candidates(alphabet, n, With(s, e)) ensures AgreesWithin(alphabet, u, s) {
      LessToAgreeWith(alphabet, u, s, e);
    }
    assert t in Candidates(alphabet, n, s) && t !in Candidates(alphabet, n, With(s, e));
  }

  lemma LessToAgreeWith(alphabet: seq<Char>, t: Table, s: SampleData, e: Evidence)
    requires t.Valid() && t.Size() > 0 && AgreesWithin(alphabet, t, With(s, e))
    requires e.Positive? ==> e.word !in s.neg
    ensures AgreesWithin(alphabet, t, s)
  {
  }

  /** What is asked of a game that is solved: labels the learner can read, edges between vertices, and a winning set
      that some automaton recognizes. */
  ghost predicate Solvable(sp: SafetyProblem, target: Table)
    reads sp.aV0, sp.aV1, sp.aI, sp.aF
  {
    && sp.Valid() && sp.game.EdgesInside() && IsAlphabet(sp.alphabet) && |sp.alphabet| <= MAX_CHAR
    && IsDfa(target, target.Size(), |sp.alphabet|) && Winning(sp.game, LanguageOfTable(sp.alphabet, target))
  }

  lemma ObeysAlike(w: Language, v: Language, e: Evidence)
    requires (forall u :: w(u) <==> v(u)) && !Obeys(w, e)
    ensures !Obeys(v, e)
  {
  }

  /** One turn of the loop that ends with a counterexample. */
  lemma Turn(sp: SafetyProblem, target: Table, s: SampleData, conjectures: seq<Table>, t: Table, g: Graph, e: Evidence)
    requires Solvable(sp, target) && Learning(sp.alphabet, target, s, conjectures)
    requires IsDfa(t, t.Size(), |sp.alphabet|) && AgreesWithin(sp.alphabet, t, s) && forall w :: g.Language(w) <==>
        Encoding.Holds(sp.alphabet, t, w)
    requires Fails(sp.game, LanguageOf(g), e) && Legible(sp, e)
    ensures !Present(s, e) && Learning(sp.alphabet, target, With(s, e), conjectures + [t])
    ensures Candidates(sp.alphabet, t.Size(), With(s, e)) < Candidates(sp.alphabet, t.Size(), s)
  {
    var alphabet, wanted, w := sp.alphabet, LanguageOfTable(sp.alphabet, target), LanguageOfTable(sp.alphabet, t);
    FailureIsOver(sp, wanted, LanguageOf(g), e);
    WithIsOver(alphabet, s, e);
    FailureRefutes(sp.game, LanguageOf(g), e);
    ObeysAlike(LanguageOf(g), w, e);
    FailureHoldsForWinning(sp.game, LanguageOf(g), e, wanted);
    Bounds.AgreeingWithinAgrees(alphabet, t, s);
    AgreesIsObeying(alphabet, t, s);
    LearnMore(alphabet, target, s, conjectures, t, e);
    ObeysWith(w, s, e);
    AgreesIsObeying(alphabet, t, With(s, e));
    NotWithin(alphabet, t, With(s, e));
    assert e.Positive? ==> wanted(e.word);
    CandidatesShrink(alphabet, t.Size(), s, e, t);
  }

  lemma NotWithin(alphabet: seq<Char>, t: Table, s: SampleData)
    requires t.Valid() && t.Size() > 0 && !Agrees(alphabet, t, s)
    ensures !AgreesWithin(alphabet, t, s)
  {
    if AgreesWithin(alphabet, t, s) {
      Bounds.AgreeingWithinAgrees(alphabet, t, s);
    }
  }

  /** The conjectures grow, up to the current number of states. */
  ghost predicate Sizes(conjectures: seq<Table>, n: nat, letters: nat) {
    && (forall i {:trigger conjectures[i]} :: 0 <= i < |conjectures| ==>
         IsDfa(conjectures[i], conjectures[i].Size(), letters) && conjectures[i].Size() <= n)
    && (forall i, j {:trigger conjectures[i], conjectures[j]} :: 0 <= i < j < |conjectures| ==>
         conjectures[i].Size() <= conjectures[j].Size())
  }

  // ----- the crash: a learner that still looks for a single state -----

  /** Every word is a safe vertex. */
  ghost predicate AllSafe(sp: SafetyProblem) {
    forall u {:trigger Over(sp.alphabet, u)} :: Over(sp.alphabet, u) ==> sp.game.safe.Language(u)
  }

  /** A vertex of player 0 without any edge. */
  ghost predicate IsStuck(sp: SafetyProblem, u: Word) {
    Over(sp.alphabet, u) && sp.game.v0.Language(u) && forall v :: !sp.game.edge(u, v)
  }

  ghost predicate SomeStuck(sp: SafetyProblem) {
    exists u :: IsStuck(sp, u)
  }

  /** The games on which the learner crashes for certain: something to be won, and images that meet the representation
      invariant. */
  ghost predicate Doomed(sp: SafetyProblem) {
    AllSafe(sp) && SomeStuck(sp) && (exists u :: sp.game.start.Language(u)) && CleanImages(sp)
  }

  /** No image of a word has a transition to a dead state. */
  ghost predicate CleanImages(sp: SafetyProblem) {
    forall u {:trigger sp.post(u)} :: sp.post(u).NoDeadTransitions()
  }

  /** While the learner looks for a single state, every existential counterexample comes from a stuck vertex of a game
      in which every word is safe; and in a doomed game it goes on looking for a single state. */
  ghost predicate AtOne(sp: SafetyProblem, n: nat, s: SampleData) {
    && (n == 1 ==> forall c {:trigger c in s.ex} :: c in s.ex ==>
         AllSafe(sp) && IsStuck(sp, c.u) && c.a == sp.post(c.u))
    && (Doomed(sp) ==> n == 1 && s.neg == [])
  }

  /** The image of a stuck vertex is a single state, unless it has transitions to dead states. */
  lemma StuckImage(sp: SafetyProblem, u: Word)
    requires ExactPost(sp.post, sp.game.edge, sp.alphabet) && IsStuck(sp, u) && sp.post(u).NoDeadTransitions()
    ensures |sp.post(u).ReachableStates()| == 1
  {
    var g := sp.post(u);
    forall v ensures !g.Language(v) {}
    assert g.Valid();
    if t :| t in g.trans[g.initial] {
      assert g.Live(t.to);
      var v :| g.Accepts(t.to, v);
      assert t.Covers(t.min) && ([t.min] + v)[1..] == v;
      assert g.Language([t.min] + v);
    }
    assert Closed(g, {g.initial});
    assert g.Reachable(g.initial);
    assert g.ReachableStates() == {g.initial};
  }

  /** An automaton with one state accepts everything or nothing. */
  lemma {:induction false} OneStateRun(t: Table, letters: nat, u: PrefixTrees.Letters)
    requires IsDfa(t, 1, letters) && forall i :: 0 <= i < |u| ==> u[i] < letters
    ensures t.Accepts(0, u) <==> t.accept[0]
    decreases |u|
  {
    if u != [] {
      OneStateRun(t, letters, u[1..]);
    }
  }

  lemma OneStateHolds(alphabet: seq<Char>, t: Table)
    requires IsDfa(t, 1, |alphabet|)
    ensures forall w {:trigger Encoding.Holds(alphabet, t, w)} :: Encoding.Holds(alphabet, t, w) <==>
        Over(alphabet, w) && t.accept[0]
  {
    forall w | Over(alphabet, w) ensures Encoding.Holds(alphabet, t, w) <==> t.accept[0] {
      OneStateRun(t, |alphabet|, Encode(alphabet, w));
    }
  }

  /** In a doomed game the automaton that accepts everything fits as long as there is no existential counterexample. */
  lemma AllWordsFit(sp: SafetyProblem, s: SampleData)
    requires Doomed(sp) && AtOne(sp, 1, s) && SampleOver(sp.alphabet, s) && Labelled(s)
        && ExactPost(sp.post, sp.game.edge, sp.alphabet)
    ensures Crashes(1, s) || Fits(1, sp.alphabet, s)
  {
    if c :| c in s.ex {
      StuckImage(sp, c.u);
      assert 1 * |c.a.ReachableStates()| == 1;
    } else {
      var t := Table(|sp.alphabet|, [seq(|sp.alphabet|, _ => 0)], [true]);
      OneStateHolds(sp.alphabet, t);
      forall c, v | c in s.uni && Read(c.a).Language(v) ensures Over(sp.alphabet, v) {
        SingleLabelsAreRead(c.a);
        LanguageIsOver(sp.alphabet, c.a, c.a.initial, v);
      }
      assert AgreesWithin(sp.alphabet, t, s);
    }
  }

  lemma {:induction false} LanguageIsOver(alphabet: seq<Char>, g: Graph, q: State, v: Word)
    requires ReadableOver(alphabet, g) && SingleLabels(g) && q in g.trans && g.Reachable(q) && g.Accepts(q, v)
    ensures Over(alphabet, v)
    decreases |v|
  {
    if v != [] {
      var p :| p in g.Succ(q, v[0]) && g.Accepts(p, v[1..]);
      var t :| t in g.Out(q) && t.Covers(v[0]) && t.to == p;
      ReachableStep(g, q, t);
      LanguageIsOver(alphabet, g, p, v[1..]);
      assert v == [v[0]] + v[1..];
    }
  }

  lemma SuccessorsAreOver(sp: SafetyProblem, u: Word)
    requires ExactPost(sp.post, sp.game.edge, sp.alphabet)
    ensures forall v {:trigger sp.game.edge(u, v)} :: sp.game.edge(u, v) ==> Over(sp.alphabet, v)
  {
    forall v | sp.game.edge(u, v) ensures Over(sp.alphabet, v) {
      assert sp.post(u).Language(v);
      LanguageIsOver(sp.alphabet, sp.post(u), sp.post(u).initial, v);
    }
  }

  /** A failed conjecture with one state that fails the existential check is everything: the vertex it fails at is
      stuck. */
  lemma ExistentialAtOne(sp: SafetyProblem, t: Table, g: Graph, e: Evidence)
    requires IsDfa(t, 1, |sp.alphabet|) && (forall w :: g.Language(w) <==> Encoding.Holds(sp.alphabet, t, w))
    requires ExactPost(sp.post, sp.game.edge, sp.alphabet)
    requires FirstFailure(sp.game, LanguageOf(g), e) && Legible(sp, e) && e.Existential?
    ensures AllSafe(sp) && IsStuck(sp, e.c.u) && e.c.a == sp.post(e.c.u)
  {
    OneStateHolds(sp.alphabet, t);
    assert LanguageOf(g)(e.c.u);
    forall u | Over(sp.alphabet, u) ensures sp.game.safe.Language(u) {
      assert LanguageOf(g)(u);
    }
    SuccessorsAreOver(sp, e.c.u);
    assert forall v {:trigger sp.game.edge(e.c.u, v)} :: Over(sp.alphabet, v) ==> LanguageOf(g)(v);
  }

  /** In a doomed game no conjecture with one state wins, and none fails at a safe vertex. */
  lemma DoomedAtOne(sp: SafetyProblem, target: Table, t: Table, g: Graph)
    requires Solvable(sp, target) && Doomed(sp)
    requires IsDfa(t, 1, |sp.alphabet|) && (forall w :: g.Language(w) <==> Encoding.Holds(sp.alphabet, t, w))
    ensures !Winning(sp.game, LanguageOf(g))
    ensures forall e {:trigger Fails(sp.game, LanguageOf(g), e)} :: Fails(sp.game, LanguageOf(g), e) ==> !e.Negative?
  {
    OneStateHolds(sp.alphabet, t);
    if t.accept[0] {
      var u :| IsStuck(sp, u);
      assert LanguageOf(g)(u) && !CanStay(sp.game, LanguageOf(g), u);
    } else {
      var u :| sp.game.start.Language(u);
      assert !LanguageOf(g)(u);
    }
  }

  lemma TurnAtOne(sp: SafetyProblem, target: Table, n: nat, s: SampleData, t: Table, g: Graph, e: Evidence)
    requires Solvable(sp, target) && AtOne(sp, n, s)
    requires IsDfa(t, n, |sp.alphabet|) && (forall w :: g.Language(w) <==> Encoding.Holds(sp.alphabet, t, w))
    requires FirstFailure(sp.game, LanguageOf(g), e) && Legible(sp, e)
    ensures AtOne(sp, n, With(s, e))
  {
    if n == 1 && e.Existential? {
      ExistentialAtOne(sp, t, g, e);
    }
    if Doomed(sp) {
      DoomedAtOne(sp, target, t, g);
    }
  }

  /** What holds between the turns. */
  ghost predicate Knows(sp: SafetyProblem, target: Table, n: nat, s: SampleData, size: nat, conjectures: seq<Table>)
    reads sp.aV0, sp.aV1, sp.aI, sp.aF
  {
    && Solvable(sp, target) && 1 <= n <= target.Size() + 1 && size == |conjectures|
    && Learning(sp.alphabet, target, s, conjectures) && Sizes(conjectures, n, |sp.alphabet|) && AtOne(sp, n, s)
  }

  // ----- the steps of a run -----

  /** A conjecture that did not pass: the sample it was made from, its table, its automaton, and the counterexample. */
  datatype Step = Step(sample: SampleData, t: Table, g: Graph, e: Evidence)

  /** No automaton with fewer than n states fits the sample. */
  ghost predicate NoneSmaller(alphabet: seq<Char>, n: nat, s: SampleData) {
    forall k: nat {:trigger Fits(k, alphabet, s)} :: 0 < k < n ==> !Fits(k, alphabet, s)
  }

  /** The learner's answer to a sample: a table of the least size that fits, as a minimal automaton. */
  ghost predicate IsConjecture(alphabet: seq<Char>, s: SampleData, t: Table, g: Graph) {
    && IsDfa(t, t.Size(), |alphabet|) && AgreesWithin(alphabet, t, s) && NoneSmaller(alphabet, t.Size(), s)
    && Conjectured(alphabet, t, g) && g.Deterministic() && g.Minimal()
  }

  /** The teacher's answer to a conjecture: the first check that fails, at the first vertex at which it fails. */
  ghost predicate Refuted(sp: SafetyProblem, s: SampleData, g: Graph, e: Evidence, s': SampleData) {
    && FirstFailure(sp.game, LanguageOf(g), e) && Earliest(sp.game, LanguageOf(g), e) && Legible(sp, e)
    && s' == With(s, e)
  }

  ghost predicate IsStep(sp: SafetyProblem, step: Step, s': SampleData) {
    IsConjecture(sp.alphabet, step.sample, step.t, step.g) && Refuted(sp, step.sample, step.g, step.e, s')
  }

  /** The sample that step i leaves behind. */
  ghost function SampleAfter(steps: seq<Step>, last: SampleData, i: nat): SampleData
    requires i < |steps|
  {
    if i + 1 < |steps| then steps[i + 1].sample else last
  }

  /** Steps that begin with the empty sample, one after the other, up to the last sample. */
  ghost predicate IsTrace(sp: SafetyProblem, steps: seq<Step>, last: SampleData) {
    && (if steps == [] then last else steps[0].sample) == SampleData([], [], [], [])
    && forall i {:trigger steps[i]} :: 0 <= i < |steps| ==> IsStep(sp, steps[i], SampleAfter(steps, last, i))
  }

  /** The tables conjectured in the steps. */
  ghost predicate AreTables(conjectures: seq<Table>, steps: seq<Step>) {
    |conjectures| == |steps| && forall i {:trigger steps[i]} {:trigger conjectures[i]} :: 0 <= i < |steps| ==>
      conjectures[i] == steps[i].t
  }

  lemma OneMoreStep(sp: SafetyProblem, conjectures: seq<Table>, steps: seq<Step>, step: Step, last: SampleData)
    requires Traced(sp, conjectures, steps, step.sample) && IsStep(sp, step, last)
    ensures Traced(sp, conjectures + [step.t], steps + [step], last)
  {
    var longer := steps + [step];
    forall i | 0 <= i < |longer| ensures IsStep(sp, longer[i], SampleAfter(longer, last, i)) {
      if i < |steps| {
        assert longer[i] == steps[i] && SampleAfter(longer, last, i) == SampleAfter(steps, step.sample, i);
      }
    }
  }

  ghost predicate Traced(sp: SafetyProblem, conjectures: seq<Table>, steps: seq<Step>, last: SampleData) {
    IsTrace(sp, steps, last) && AreTables(conjectures, steps)
  }

  /** What does not fit a sample does not fit a larger one. */
  lemma StillNoneSmaller(sp: SafetyProblem, target: Table, n: nat, s: SampleData, e: Evidence, g: Graph)
    requires Winning(sp.game, LanguageOfTable(sp.alphabet, target)) && ObeysAll(LanguageOfTable(sp.alphabet, target), s)
    requires NoneSmaller(sp.alphabet, n, s) && Fails(sp.game, LanguageOf(g), e)
    ensures NoneSmaller(sp.alphabet, n, With(s, e))
  {
    assert e.Positive? ==> LanguageOfTable(sp.alphabet, target)(e.word);
    forall k: nat | 0 < k < n ensures !Fits(k, sp.alphabet, With(s, e)) {
      FitsLess(sp.alphabet, k, s, e);
    }
  }

  lemma FitsLess(alphabet: seq<Char>, k: nat, s: SampleData, e: Evidence)
    requires e.Positive? ==> e.word !in s.neg
    ensures Fits(k, alphabet, With(s, e)) ==> Fits(k, alphabet, s)
  {
    if t :| IsDfa(t, k, |alphabet|) && AgreesWithin(alphabet, t, With(s, e)) {
      LessToAgreeWith(alphabet, t, s, e);
    }
  }

  /** What the learner's answer means. */
  lemma AnswerIsNew(sp: SafetyProblem, target: Table, n: nat, n': nat, s: SampleData, size: nat,
      conjectures: seq<Table>, t: Table)
    requires Knows(sp, target, n, s, size, conjectures) && NoneSmaller(sp.alphabet, n, s)
    requires n <= n' && (n' == n || n' <= target.Size() + 1)
    requires !Crashes(n, s) && forall k: nat :: n <= k < n' ==> !Fits(k, sp.alphabet, s)
    requires IsDfa(t, n', |sp.alphabet|) && AgreesWithin(sp.alphabet, t, s)
    ensures Knows(sp, target, n', s, size, conjectures) && NoneSmaller(sp.alphabet, n', s)
    ensures forall i {:trigger conjectures[i]} :: 0 <= i < |conjectures| ==>
      Differ(LanguageOfTable(sp.alphabet, conjectures[i]), LanguageOfTable(sp.alphabet, t))
  {
    if Doomed(sp) {
      AllWordsFit(sp, s);
    }
    Bounds.AgreeingWithinAgrees(sp.alphabet, t, s);
    AgreesIsObeying(sp.alphabet, t, s);
    NewLanguage(sp.alphabet, target, s, conjectures, t);
  }

  /** The learner's part of a turn: a new conjecture, or the crash. */
  method Conjecture(sp: SafetyProblem, solve: Solver, learner: Learner, s: SampleData, size: nat, ghost target: Table,
      ghost conjectures: seq<Table>)
      returns (w: Outcome<Automaton>, ghost t: Table, ghost g: Graph)
    requires learner.alphabet == sp.alphabet && Exact(solve) && Knows(sp, target, learner.n, s, size, conjectures)
    requires NoneSmaller(sp.alphabet, learner.n, s)
    modifies learner
    ensures Knows(sp, target, learner.n, s, size, conjectures) && old(learner.n) <= learner.n
    ensures w.IndexOutOfBounds? ==> Crashes(1, s) && learner.n == 1
    ensures w.Ok? ==> fresh(w.value) && w.value.Clean() && w.value.Snapshot() == g && t.Size() == learner.n
    ensures w.Ok? ==> IsConjecture(sp.alphabet, s, t, g) && IsNew(sp.alphabet, learner.n, conjectures, t)
  {
    g := Graph(0, {}, map[]);
    AgreesIsObeying(sp.alphabet, target, s);
    w, t := learner.Conjecture(solve, s, target);
    if w.IndexOutOfBounds? {
      CrashesOnlyAtOne(old(learner.n), s);
      return;
    }
    g := w.value.Snapshot();
    AnswerIsNew(sp, target, old(learner.n), learner.n, s, size, conjectures, t);
  }

  lemma OneMoreSize(conjectures: seq<Table>, n: nat, letters: nat, t: Table)
    requires Sizes(conjectures, n, letters) && IsDfa(t, n, letters)
    ensures Sizes(conjectures + [t], n, letters)
  {
  }

  lemma TurnKnows(sp: SafetyProblem, target: Table, n: nat, s: SampleData, size: nat, conjectures: seq<Table>, t: Table,
      g: Graph, e: Evidence)
    requires Knows(sp, target, n, s, size, conjectures) && IsDfa(t, n, |sp.alphabet|)
    requires AgreesWithin(sp.alphabet, t, s) && forall w :: g.Language(w) <==> Encoding.Holds(sp.alphabet, t, w)
    requires FirstFailure(sp.game, LanguageOf(g), e) && Legible(sp, e)
    ensures !Present(s, e) && Knows(sp, target, n, With(s, e), size + 1, conjectures + [t])
    ensures Candidates(sp.alphabet, n, With(s, e)) < Candidates(sp.alphabet, n, s)
  {
    Turn(sp, target, s, conjectures, t, g, e);
    OneMoreSize(conjectures, n, |sp.alphabet|, t);
    TurnAtOne(sp, target, n, s, t, g, e);
  }

  /** The teacher's part of a turn. */
  method Check(sp: SafetyProblem, teacher: Teacher, cdfa: Automaton, s: Sample, ghost n: nat, ghost target: Table,
      ghost conjectures: seq<Table>, ghost t: Table, ghost g: Graph)
      returns (isWinningSet: bool, ghost e: Evidence)
    requires teacher.sp == sp && s.Valid() && cdfa.Clean() && cdfa.Snapshot() == g
        && Knows(sp, target, n, s.Data(), s.size, conjectures)
    requires IsConjecture(sp.alphabet, s.Data(), t, g) && t.Size() == n
    modifies s
    ensures s.Valid()
    ensures isWinningSet ==>
        s.Data() == old(s.Data()) && s.size == old(s.size)
        && Winning(sp.game, LanguageOf(g)) && !Doomed(sp)
    ensures !isWinningSet ==> Knows(sp, target, n, s.Data(), s.size, conjectures + [t])
    ensures !isWinningSet ==> Candidates(sp.alphabet, n, s.Data()) < Candidates(sp.alphabet, n, old(s.Data()))
    ensures !isWinningSet ==> Refuted(sp, old(s.Data()), g, e, s.Data()) && NoneSmaller(sp.alphabet, n, s.Data())
  {
    ghost var data := s.Data();
    isWinningSet, e := teacher.CheckIfWinningSet(cdfa, s, g);
    if isWinningSet {
      PassesIsWinning(sp.game, LanguageOf(g));
      if Doomed(sp) {
        DoomedAtOne(sp, target, t, g);
      }
    } else {
      TurnKnows(sp, target, n, data, |conjectures|, conjectures, t, g, e);
      StillNoneSmaller(sp, target, n, data, e, g);
    }
  }

  /** t is a new conjecture with n states. */
  ghost predicate IsNew(alphabet: seq<Char>, n: nat, conjectures: seq<Table>, t: Table) {
    && IsDfa(t, n, |alphabet|)
    && forall i {:trigger conjectures[i]} :: 0 <= i < |conjectures| ==>
         Differ(LanguageOfTable(alphabet, conjectures[i]), LanguageOfTable(alphabet, t))
  }

  ghost predicate Shrunk(alphabet: seq<Char>, n: nat, s: SampleData, n': nat, s': SampleData) {
    n < n' || (n == n' && Candidates(alphabet, n', s') < Candidates(alphabet, n, s))
  }

  lemma CandidatesOnlyShrink(sp: SafetyProblem, n: nat, n': nat, s: SampleData, s': SampleData)
    requires n <= n' && Candidates(sp.alphabet, n', s') < Candidates(sp.alphabet, n', s)
    ensures Shrunk(sp.alphabet, n, s, n', s')
  {
  }

  /** One turn of the loop: a winning set, the crash, or one step more. */
  method TakeTurn(sp: SafetyProblem, solve: Solver, learner: Learner, teacher: Teacher, s: Sample, ghost target: Table,
      ghost conjectures: seq<Table>)
      returns (w: Outcome<Automaton>, isWinningSet: bool, ghost step: Step)
    requires Exact(solve) && learner.alphabet == sp.alphabet && teacher.sp == sp && s.Valid()
    requires Knows(sp, target, learner.n, s.Data(), s.size, conjectures)
        && NoneSmaller(sp.alphabet, learner.n, s.Data())
    modifies learner, s
    ensures s.Valid() && (w.IndexOutOfBounds? ==> isWinningSet)
    ensures isWinningSet ==> Knows(sp, target, learner.n, s.Data(), s.size, conjectures) && s.Data() == old(s.Data())
    ensures w.IndexOutOfBounds? ==> Crashes(1, s.Data()) && learner.n == 1
    ensures w.Ok? && isWinningSet ==>
        fresh(w.value) && w.value.Clean() && Winning(sp.game, LanguageOf(w.value.Snapshot())) && !Doomed(sp)
    ensures w.Ok? && isWinningSet ==>
        IsConjecture(sp.alphabet, s.Data(), step.t, w.value.Snapshot())
        && IsNew(sp.alphabet, learner.n, conjectures, step.t)
    ensures !isWinningSet ==>
        Knows(sp, target, learner.n, s.Data(), s.size, conjectures + [step.t])
        && NoneSmaller(sp.alphabet, learner.n, s.Data())
    ensures !isWinningSet ==> step.sample == old(s.Data()) && IsStep(sp, step, s.Data())
    ensures !isWinningSet ==> Shrunk(sp.alphabet, old(learner.n), old(s.Data()), learner.n, s.Data())
  {
    ghost var data, t, g, e := s.Data(), target, Graph(0, {}, map[]), Positive([]);
    w, t, g := Conjecture(sp, solve, learner, s.Data(), s.size, target, conjectures);
    isWinningSet := true;
    if w.Ok? {
      isWinningSet, e := Check(sp, teacher, w.value, s, learner.n, target, conjectures, t, g);
      if !isWinningSet {
        CandidatesOnlyShrink(sp, old(learner.n), learner.n, data, s.Data());
      }
    }
    step := Step(data, t, g, e);
  }

  ghost predicate Conjectured(alphabet: seq<Char>, t: Table, g: Graph) {
    forall w :: g.Language(w) <==> LanguageOfTable(alphabet, t)(w)
  }

  /** The loop: turn after turn, until a turn does not end with a counterexample. */
  method Learn(sp: SafetyProblem, solve: Solver, learner: Learner, teacher: Teacher, s: Sample, ghost target: Table)
      returns (w: Outcome<Automaton>, ghost conjectures: seq<Table>, ghost steps: seq<Step>, ghost t: Table)
    requires Exact(solve) && learner.alphabet == sp.alphabet && teacher.sp == sp && s.Valid()
    requires Knows(sp, target, learner.n, s.Data(), s.size, []) && learner.n == 1
    requires s.Data() == SampleData([], [], [], [])
    modifies learner, s
    ensures s.Valid() && Knows(sp, target, learner.n, s.Data(), s.size, conjectures)
    ensures Traced(sp, conjectures, steps, s.Data())
    ensures w.IndexOutOfBounds? ==> Crashes(1, s.Data()) && learner.n == 1
    ensures w.Ok? ==> fresh(w.value) && w.value.Clean() && Winning(sp.game,
        LanguageOf(w.value.Snapshot())) && !Doomed(sp)
    ensures w.Ok? ==>
        IsConjecture(sp.alphabet, s.Data(), t, w.value.Snapshot()) && IsNew(sp.alphabet, learner.n, conjectures, t)
  {
    conjectures, steps := [], [];
    while true
      invariant s.Valid() && Knows(sp, target, learner.n, s.Data(), s.size, conjectures)
      invariant NoneSmaller(sp.alphabet, learner.n, s.Data())
      invariant Traced(sp, conjectures, steps, s.Data())
      decreases target.Size() + 1 - learner.n, Candidates(sp.alphabet, learner.n, s.Data())
    {
      var isWinningSet;
      ghost var step;
      w, isWinningSet, step := TakeTurn(sp, solve, learner, teacher, s, target, conjectures);
      t := step.t;
      if isWinningSet {
        return;
      }
      OneMoreStep(sp, conjectures, steps, step, s.Data());
      conjectures, steps := conjectures + [t], steps + [step];
    }
  }

  /** The whole run, from the empty sample on: each step conjectures a table of the least size that fits and adds the
      first counterexample to it. The counterexamples hold for the target, and no language is conjectured twice. */
  ghost predicate RunOf(sp: SafetyProblem, target: Table, conjectures: seq<Table>, steps: seq<Step>,
      sample: SampleData) {
    && |steps| <= |conjectures| && Traced(sp, conjectures[..|steps|], steps, sample)
    && Learnt(sp, target, conjectures, sample) && |sample.pos| + |sample.neg| + |sample.ex| + |sample.uni| == |steps|
  }

  ghost predicate Learnt(sp: SafetyProblem, target: Table, conjectures: seq<Table>, sample: SampleData) {
    && ObeysAll(LanguageOfTable(sp.alphabet, target), sample)
    && Sizes(conjectures, target.Size() + 1, |sp.alphabet|)
    && forall i, j {:trigger conjectures[i], conjectures[j]} :: 0 <= i < j < |conjectures| ==>
         Differ(LanguageOfTable(sp.alphabet, conjectures[i]), LanguageOfTable(sp.alphabet, conjectures[j]))
  }

  /** A stuck vertex whose image is a single state, in a game in which every word is safe. */
  ghost predicate CanCrash(sp: SafetyProblem) {
    AllSafe(sp) && exists u :: IsStuck(sp, u) && |sp.post(u).ReachableStates()| == 1
  }

  lemma CrashIsStuck(sp: SafetyProblem, s: SampleData)
    requires AtOne(sp, 1, s) && Crashes(1, s)
    ensures CanCrash(sp)
  {
    var c :| c in s.ex && 1 * |c.a.ReachableStates()| == 1;
    assert IsStuck(sp, c.u) && |sp.post(c.u).ReachableStates()| == 1;
  }

  lemma AllLearnt(sp: SafetyProblem, target: Table, n: nat, s: SampleData, size: nat, conjectures: seq<Table>)
    requires Knows(sp, target, n, s, size, conjectures)
    ensures Learnt(sp, target, conjectures, s) && size == |conjectures|
  {
  }

  lemma LastLearnt(sp: SafetyProblem, target: Table, n: nat, s: SampleData, size: nat, conjectures: seq<Table>,
      t: Table)
    requires Knows(sp, target, n, s, size, conjectures) && IsNew(sp.alphabet, n, conjectures, t)
    ensures Learnt(sp, target, conjectures + [t], s) && size == |conjectures|
  {
  }

  lemma EndOfLearning(sp: SafetyProblem, target: Table, s: SampleData, conjectures: seq<Table>, steps: seq<Step>,
      all: seq<Table>)
    requires Traced(sp, conjectures, steps, s) && conjectures <= all && Learnt(sp, target, all, s)
    requires |conjectures| == |s.pos| + |s.neg| + |s.ex| + |s.uni|
    ensures RunOf(sp, target, all, steps, s)
  {
    assert all[..|steps|] == conjectures;
  }

  /** Solves a safety game. When some automaton with k states recognizes a winning set the loop ends: from the empty
      sample on, each conjecture is the minimal automaton of a table of the least size that fits the sample, and each
      failure adds the first counterexample. No language is conjectured twice, no conjecture has more than k+1 states,
      every counterexample is new and holds for the target, and what is returned is the last conjecture, a winning set.
      The only other end is the crash of a learner that still looks for a single state. It happens only in a game in
      which every word is safe and some vertex of player 0 has no edge; and, when there is an initial vertex and images
      have no transitions to dead states, in all of those. */
  method Solve(sp: SafetyProblem, solve: Solver, ghost target: Table)
      returns (r: Outcome<Automaton>, ghost conjectures: seq<Table>, ghost steps: seq<Step>, ghost sample: SampleData)
    requires Solvable(sp, target) && Exact(solve)
    ensures RunOf(sp, target, conjectures, steps, sample)
    ensures r.Ok? ==> fresh(r.value) && r.value.Clean() && Winning(sp.game, LanguageOf(r.value.Snapshot()))
    ensures r.Ok? ==>
        |conjectures| == |steps| + 1
        && IsConjecture(sp.alphabet, sample, conjectures[|steps|], r.value.Snapshot())
    ensures r.IndexOutOfBounds? ==> |conjectures| == |steps| && Crashes(1, sample)
    ensures r.IndexOutOfBounds? ==> Sizes(conjectures, 1, |sp.alphabet|) && CanCrash(sp)
    ensures (exists u :: sp.game.start.Language(u)) && CleanImages(sp) ==>
        (r.IndexOutOfBounds? <==> AllSafe(sp) && SomeStuck(sp))
  {
    var learner := new Learner(sp.alphabet);
    var teacher := new Teacher(sp);
    var s := new Sample();
    ghost var t;
    r, conjectures, steps, t := Learn(sp, solve, learner, teacher, s, target);
    sample := s.Data();
    ghost var all := conjectures;
    if r.Ok? {
      LastLearnt(sp, target, learner.n, sample, s.size, conjectures, t);
      all := conjectures + [t];
    } else {
      AllLearnt(sp, target, learner.n, sample, s.size, conjectures);
      CrashIsStuck(sp, sample);
    }
    EndOfLearning(sp, target, sample, conjectures, steps, all);
    conjectures := all;
  }
}
