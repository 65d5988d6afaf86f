/** Language inclusion by a search over pairs of states. */
module Inclusion {
  import opened Languages
  import opened Automata
  import opened Products
  import opened Runs
  import BasicOperations

  /** A sorted row of a deterministic automaton: the intervals follow one another. */
  ghost predicate Separated(ts: seq<Transition>) {
    && (forall i {:trigger ts[i]} :: 0 <= i < |ts| ==> ts[i].min <= ts[i].max)
    && (forall i, j {:trigger ts[i], ts[j]} :: 0 <= i < j < |ts| ==> ts[i].max < ts[j].min)
  }

  ghost predicate CoveredBy(ts: seq<Transition>, c: Char) {
    exists i :: 0 <= i < |ts| && ts[i].Covers(c)
  }

  /** The part of the sweep that is behind it: t2[b2..n2] cover t up to min1, or to its end when they reach the last
      character. */
  ghost predicate SweptTo(t: Transition, t2: seq<Transition>, b2: nat, n2: nat, min1: int, max1: int, saturated: bool) {
    && b2 <= n2 <= |t2| && t.min <= min1 <= MAX_CHAR
    && (saturated ==> n2 > b2 && t2[n2 - 1].max == MAX_CHAR && min1 == MAX_CHAR && max1 == MIN_CHAR && forall c: Char ::
         t.Covers(c) ==> CoveredBy(t2, c))
    && (!saturated ==> max1 == t.max && min1 == if n2 == b2 then t.min as int else t2[n2 - 1].max + 1)
    && (!saturated ==> forall c: Char :: t.min <= c < min1 ==> CoveredBy(t2, c))
  }

  lemma SweepOver(t: Transition, t2: seq<Transition>, b2: nat, n2: nat, min1: int, max1: int, saturated: bool)
    requires Separated(t2) && SweptTo(t, t2, b2, n2, min1, max1, saturated) && n2 < |t2| && t2[n2].min <= min1
    ensures !saturated
    ensures t2[n2].max < MAX_CHAR && t.min <= t2[n2].max ==> SweptTo(t, t2, b2, n2 + 1, t2[n2].max + 1, max1, false)
    ensures t2[n2].max == MAX_CHAR ==> SweptTo(t, t2, b2, n2 + 1, MAX_CHAR, MIN_CHAR, true)
  {
    assert forall c: Char :: min1 <= c <= t2[n2].max ==> t2[n2].Covers(c);
  }

  /** Nothing covers min1 where the next interval starts too late. */
  lemma SweepGap(t: Transition, t2: seq<Transition>, b2: nat, n2: nat, min1: int, max1: int)
    requires Separated(t2) && SweptTo(t, t2, b2, n2, min1, max1, false) && Behind(t2, b2, t.min)
    requires n2 < |t2| ==> min1 < t2[n2].min
    ensures !CoveredBy(t2, min1)
  {
    forall i | 0 <= i < |t2| ensures !t2[i].Covers(min1) {
      if n2 < i {
        assert t2[n2].max < t2[i].min;
      }
    }
  }

  ghost predicate HitsAll(t: Transition, t2: seq<Transition>, tos: seq<State>) {
    forall q :: q in tos <==> exists i :: 0 <= i < |t2| && Overlap(t, t2[i]) && t2[i].to == q
  }

  /** The uncovered-interval sweep for one transition t of the first automaton: whether t2 covers all of t, and where
      its parts lead. The first b2 transitions of t2 are behind t. */
  method CoverSweep(t: Transition, t2: seq<Transition>, b2: nat) returns (ok: bool, tos: seq<State>)
    requires t.min <= t.max && Separated(t2) && b2 <= |t2| && Behind(t2, b2, t.min)
        && (b2 < |t2| ==> t.min <= t2[b2].max)
    ensures ok <==> forall c: Char :: t.Covers(c) ==> CoveredBy(t2, c)
    ensures ok ==> HitsAll(t, t2, tos)
  {
    var min1, max1: int := t.min, t.max;
    tos := [];
    var n2 := b2;
    ghost var saturated := false;
    while n2 < |t2| && t.max >= t2[n2].min
      invariant SweptTo(t, t2, b2, n2, min1, max1, saturated)
      invariant forall q :: q in tos <==> exists i :: b2 <= i < n2 && t2[i].to == q
      invariant forall i {:trigger t2[i]} :: b2 <= i < n2 ==> Overlap(t, t2[i])
    {
      assert t.min <= t2[n2].max by {
        assert b2 < n2 ==> t2[b2].max < t2[n2].min;
      }
      if t2[n2].min > min1 {
        assert !saturated;
        SweepGap(t, t2, b2, n2, min1, max1);
        assert t.Covers(min1);
        return false, [];
      }
      SweepOver(t, t2, b2, n2, min1, max1, saturated);
      if t2[n2].max < MAX_CHAR {
        min1 := t2[n2].max + 1;
      } else {
        min1 := MAX_CHAR;
        max1 := MIN_CHAR;
        saturated := true;
      }
      tos := tos + [t2[n2].to];
      n2 := n2 + 1;
    }
    ok := min1 > max1;
    if !ok {
      SweepGap(t, t2, b2, n2, min1, max1);
      assert t.Covers(min1);
    }
    assert n2 < |t2| ==> forall i {:trigger t2[i]} :: n2 <= i < |t2| ==> t.max < t2[i].min by {
      assert forall i {:trigger t2[i]} :: n2 < i < |t2| ==> t2[n2].max < t2[i].min;
    }
  }

  /** Every character of row t1 is a character of row t2. */
  ghost predicate RowCovered(t1: seq<Transition>, t2: seq<Transition>) {
    forall t, c: Char {:trigger t in t1, CoveredBy(t2, c)} :: t in t1 && t.Covers(c) ==> CoveredBy(t2, c)
  }

  /** The loop over a row of the first automaton. */
  method CoverRow(t1: seq<Transition>, t2: seq<Transition>) returns (ok: bool, pairs: seq<Pair>)
    requires Sorted(t1, false) && Separated(t2) && forall t :: t in t1 ==> t.min <= t.max
    ensures ok <==> RowCovered(t1, t2)
    ensures ok ==> forall p :: p in pairs <==> exists t, u :: t in t1 && u in t2 && Overlap(t, u) && p == (t.to, u.to)
  {
    pairs := [];
    var b2 := 0;
    for n1 := 0 to |t1|
      invariant b2 <= |t2| && (n1 < |t1| ==> Behind(t2, b2, t1[n1].min))
      invariant RowCovered(t1[..n1], t2)
      invariant forall p :: p in pairs <==>
          exists t, u :: t in t1[..n1] && u in t2 && Overlap(t, u) && p == (t.to, u.to)
    {
      while b2 < |t2| && t2[b2].max < t1[n1].min
        invariant b2 <= |t2| && Behind(t2, b2, t1[n1].min)
      {
        b2 := b2 + 1;
      }
      var tos;
      ok, tos := CoverSweep(t1[n1], t2, b2);
      if !ok {
        assert t1[n1] in t1;
        return;
      }
      ghost var before := pairs;
      var more := seq(|tos|, i requires 0 <= i < |tos| => (t1[n1].to, tos[i]));
      pairs := pairs + more;
      assert n1 + 1 < |t1| ==> Before(t1[n1], t1[n1 + 1], false);
      MorePairs(t1, t2, n1, tos, more, before);
      forall t, c: Char | t in t1[..n1 + 1] && t.Covers(c) ensures CoveredBy(t2, c) {
        assert t == t1[n1] || t in t1[..n1];
      }
    }
    assert t1[..|t1|] == t1;
    ok := true;
  }

  lemma MorePairs(t1: seq<Transition>, t2: seq<Transition>, n1: nat, tos: seq<State>, more: seq<Pair>,
      before: seq<Pair>)
    requires n1 < |t1| && HitsAll(t1[n1], t2, tos) && |more| == |tos| && forall i :: 0 <= i < |tos| ==>
        more[i] == (t1[n1].to, tos[i])
    requires forall p :: p in before <==> exists t, u :: t in t1[..n1] && u in t2 && Overlap(t, u) && p == (t.to, u.to)
    ensures forall p :: p in before + more <==>
        exists t, u :: t in t1[..n1 + 1] && u in t2 && Overlap(t, u) && p == (t.to, u.to)
  {
    forall p ensures p in before + more <==> exists t, u :: t in t1[..n1 + 1] && u in t2 && Overlap(t, u) && p == (t.to,
        u.to)
    {
      if p in more {
        var i :| 0 <= i < |more| && more[i] == p;
        assert tos[i] in tos;
        var k :| 0 <= k < |t2| && Overlap(t1[n1], t2[k]) && t2[k].to == tos[i];
        assert t1[n1] in t1[..n1 + 1] && t2[k] in t2;
      }
      if t, u :| t in t1[..n1 + 1] && u in t2 && Overlap(t, u) && p == (t.to, u.to) {
        if t !in t1[..n1] {
          var k :| 0 <= k < |t2| && t2[k] == u;
          assert u.to in tos;
          var i :| 0 <= i < |tos| && tos[i] == u.to;
          assert more[i] == p;
        }
      }
    }
  }

  /** Some word leads both automata to the pair. */
  ghost predicate JointlyReached(g1: Graph, g2: Graph, p: Pair) {
    exists u :: g1.Reaches(g1.initial, u, p.0) && g2.Reaches(g2.initial, u, p.1)
  }

  /** Whatever the first state does the second can do, and the search knows where that leads. */
  ghost predicate Answered(g1: Graph, g2: Graph, visited: set<Pair>, p: Pair) {
    && (p.0 in g1.accept ==> p.1 in g2.accept)
    && forall t, c: Char {:trigger t in g1.Out(p.0), t.Covers(c)} :: t in g1.Out(p.0) && t.Covers(c) ==>
         exists u :: u in g2.Out(p.1) && u.Covers(c) && (t.to, u.to) in visited
  }

  ghost predicate Exploring(g1: Graph, g2: Graph, visited: set<Pair>, worklist: seq<Pair>) {
    && (g1.initial, g2.initial) in visited
    && (forall p :: p in worklist ==> p in visited)
    && (forall p {:trigger Existing(g1, g2, p)} {:trigger JointlyReached(g1, g2, p)} :: p in visited ==>
         Existing(g1, g2, p) && JointlyReached(g1, g2, p))
    && (forall p {:trigger Answered(g1, g2, visited, p)} :: p in visited && p !in worklist ==>
         Answered(g1, g2, visited, p))
  }

  lemma JointStep(g1: Graph, g2: Graph, p: Pair, t: Transition, u: Transition)
    requires g1.Valid() && g2.Valid() && Existing(g1, g2, p) && JointlyReached(g1, g2, p)
    requires t in g1.trans[p.0] && u in g2.trans[p.1] && Overlap(t, u)
    ensures Existing(g1, g2, (t.to, u.to)) && JointlyReached(g1, g2, (t.to, u.to))
  {
    var w :| g1.Reaches(g1.initial, w, p.0) && g2.Reaches(g2.initial, w, p.1);
    var c: Char := if t.min > u.min then t.min else u.min;
    Farther(g1, g1.initial, w, p.0, c, t.to);
    Farther(g2, g2.initial, w, p.1, c, u.to);
  }

  /** The second automaton can only be in the state of the pair after the word that leads to it. */
  lemma RejectedAfter(g1: Graph, g2: Graph, p: Pair, u: Word, v: Word)
    requires g2.Deterministic() && g1.Reaches(g1.initial, u, p.0) && g2.Reaches(g2.initial, u, p.1)
    requires g1.Accepts(p.0, v) && !g2.Accepts(p.1, v)
    ensures g1.Language(u + v) && !g2.Language(u + v)
  {
    ReachesThenAccepts(g1, g1.initial, u, p.0, v);
    if g2.Language(u + v) {
      var r := AcceptsSplit(g2, g2.initial, u, v);
      DeterministicRun(g2, g2.initial, u, p.1, r);
    }
  }

  ghost predicate Included(g1: Graph, g2: Graph) {
    forall w :: g1.Language(w) ==> g2.Language(w)
  }

  /** What the search decides: besides the words, the second automaton has a run wherever the first has one. */
  ghost predicate RunsIncluded(g1: Graph, g2: Graph) {
    Included(g1, g2) && forall w {:trigger HasRun(g1, g1.initial, w)} ::
      HasRun(g1, g1.initial, w) ==> HasRun(g2, g2.initial, w)
  }

  /** Without transitions to dead states the words decide about the runs. */
  lemma LiveRunsIncluded(g1: Graph, g2: Graph)
    requires g1.Valid() && g1.NoDeadTransitions()
    ensures RunsIncluded(g1, g2) <==> Included(g1, g2)
  {
    if Included(g1, g2) {
      forall w | HasRun(g1, g1.initial, w) ensures HasRun(g2, g2.initial, w) {
        if w == [] {
          assert g2.Reaches(g2.initial, [], g2.initial);
        } else {
          var p :| g1.Reaches(g1.initial, w, p);
          LastIsLive(g1, w, p);
          var v :| g1.Accepts(p, v);
          ReachesThenAccepts(g1, g1.initial, w, p, v);
          assert g2.Language(w + v);
          var r := AcceptsSplit(g2, g2.initial, w, v);
        }
      }
    }
  }

  lemma LastIsLive(g: Graph, w: Word, p: State)
    requires g.Valid() && g.NoDeadTransitions() && w != [] && g.Reaches(g.initial, w, p)
    ensures g.Live(p)
  {
    assert w == w[..|w| - 1] + [w[|w| - 1]];
    var r := ReachesSplit(g, g.initial, w[..|w| - 1], w[|w| - 1], p);
    var t :| t in g.Out(r) && t.Covers(w[|w| - 1]) && t.to == p;
  }

  /** A move that is not covered: a run that the second automaton does not have. */
  lemma NotIncluded(g1: Graph, g2: Graph, p: Pair, t: Transition, c: Char)
    requires g2.Deterministic() && Existing(g1, g2, p) && JointlyReached(g1, g2, p)
    requires t in g1.trans[p.0] && t.Covers(c) && !Covered(g2.trans[p.1], c)
    ensures !RunsIncluded(g1, g2)
  {
    var u :| g1.Reaches(g1.initial, u, p.0) && g2.Reaches(g2.initial, u, p.1);
    Farther(g1, g1.initial, u, p.0, c, t.to);
    assert HasRun(g1, g1.initial, u + [c]);
    assert g2.Succ(p.1, c) == {};
    forall s ensures !g2.Reaches(g2.initial, u + [c], s) {
      if g2.Reaches(g2.initial, u + [c], s) {
        var r := ReachesSplit(g2, g2.initial, u, c, s);
        DeterministicRun(g2, g2.initial, u, p.1, r);
      }
    }
  }

  /** Every run of the first automaton is answered by one of the second. */
  lemma {:induction false} RunsAnswered(g1: Graph, g2: Graph, visited: set<Pair>, q: State, p: State, w: Word,
      q': State) returns (p': State)
    requires Exploring(g1, g2, visited, []) && (q, p) in visited && g1.Reaches(q, w, q')
    ensures g2.Reaches(p, w, p')
    decreases |w|
  {
    if w == [] {
      p' := p;
    } else {
      var r :| r in g1.Succ(q, w[0]) && g1.Reaches(r, w[1..], q');
      var t :| t in g1.Out(q) && t.Covers(w[0]) && t.to == r;
      assert Answered(g1, g2, visited, (q, p));
      var u :| u in g2.Out(p) && u.Covers(w[0]) && (t.to, u.to) in visited;
      p' := RunsAnswered(g1, g2, visited, r, u.to, w[1..], q');
      assert u.to in g2.Succ(p, w[0]);
    }
  }

  lemma NothingLeft(g1: Graph, g2: Graph, visited: set<Pair>, w: Word)
    requires Exploring(g1, g2, visited, []) && g1.Language(w)
    ensures g2.Language(w)
  {
    var r := (q: State, p: State) => (q, p) in visited;
    forall q, p, c: Char, q' | r(q, p) && q' in g1.Succ(q, c) ensures exists p' :: p' in g2.Succ(p, c) && r(q', p') {
      assert Answered(g1, g2, visited, (q, p));
      var t :| t in g1.Out(q) && t.Covers(c) && t.to == q';
      var u :| u in g2.Out(p) && u.Covers(c) && (t.to, u.to) in visited;
      assert u.to in g2.Succ(p, c);
    }
    assert forall q, p :: r(q, p) && q in g1.accept ==> p in g2.accept by {
      forall q, p | r(q, p) && q in g1.accept ensures p in g2.accept {
        assert Answered(g1, g2, visited, (q, p));
      }
    }
    SimulationAccepts(g1, g2, r, g1.initial, g2.initial, w);
  }

  lemma SortedIsSeparated(g: Graph, q: State, ts: seq<Transition>)
    requires g.Valid() && g.Deterministic() && q in g.trans && Sorted(ts, false) && Unrepeated(ts) && forall t ::
        t in ts <==> t in g.trans[q]
    ensures Separated(ts)
  {
    forall i | 0 <= i < |ts| ensures ts[i].min <= ts[i].max {
      assert ts[i] in g.trans[q];
    }
    forall i, j | 0 <= i < j < |ts| ensures ts[i].max < ts[j].min {
      assert ts[i] in g.trans[q] && ts[j] in g.trans[q] && ts[i] != ts[j];
      assert Before(ts[i], ts[j], false);
    }
  }

  /** Adds the pairs that have not been visited yet. */
  method Visit(g1: Graph, g2: Graph, visited0: set<Pair>, worklist0: seq<Pair>, pairs: seq<Pair>)
      returns (visited: set<Pair>, worklist: seq<Pair>)
    requires forall p :: p in worklist0 ==> p in visited0
    ensures visited == visited0 + (set p | p in pairs)
    ensures forall p :: p in worklist ==> p in visited
    ensures forall p :: p in worklist0 || (p in visited && p !in visited0) ==> p in worklist
    ensures visited == visited0 ==> worklist == worklist0
  {
    visited, worklist := visited0, worklist0;
    for i := 0 to |pairs|
      invariant visited == visited0 + (set p | p in pairs[..i])
      invariant forall p :: p in worklist ==> p in visited
      invariant forall p :: p in worklist0 || (p in visited && p !in visited0) ==> p in worklist
      invariant visited == visited0 ==> worklist == worklist0
    {
      if pairs[i] !in visited {
        worklist := worklist + [pairs[i]];
        visited := visited + {pairs[i]};
      }
    }
    assert pairs[..|pairs|] == pairs;
  }

  /** One pair taken from the worklist, found covered, its successors visited. */
  lemma ExploreStep(g1: Graph, g2: Graph, visited: set<Pair>, worklist: seq<Pair>, p: Pair, t1: seq<Transition>,
      t2: seq<Transition>, pairs: seq<Pair>,
                    visited': set<Pair>, worklist': seq<Pair>)
    requires g1.Valid() && g2.Valid() && worklist != [] && p == worklist[0] && Exploring(g1, g2, visited, worklist)
    requires (p.0 in g1.accept ==> p.1 in g2.accept) && RowCovered(t1, t2)
    requires (forall t :: t in t1 <==> t in g1.Out(p.0)) && (forall t :: t in t2 <==> t in g2.Out(p.1))
    requires forall q :: q in pairs <==> exists t, u :: t in t1 && u in t2 && Overlap(t, u) && q == (t.to, u.to)
    requires visited' == visited + (set q | q in pairs) && forall q :: q in worklist' ==> q in visited'
    requires forall q :: q in worklist[1..] || (q in visited' && q !in visited) ==> q in worklist'
    ensures Exploring(g1, g2, visited', worklist')
  {
    assert worklist == [p] + worklist[1..];
    assert Existing(g1, g2, p) && JointlyReached(g1, g2, p);
    forall q | q in pairs ensures Existing(g1, g2, q) && JointlyReached(g1, g2, q) {
      var t, u :| t in t1 && u in t2 && Overlap(t, u) && q == (t.to, u.to);
      JointStep(g1, g2, p, t, u);
    }
    forall q | q in visited' && q !in worklist' ensures Answered(g1, g2, visited', q) {
      if q == p {
        forall t, c: Char | t in g1.Out(p.0) && t.Covers(c)
            ensures exists u :: u in g2.Out(p.1) && u.Covers(c) && (t.to, u.to) in visited'
        {
          assert t in t1 && CoveredBy(t2, c);
          var i :| 0 <= i < |t2| && t2[i].Covers(c);
          assert t2[i] in t2 && Overlap(t, t2[i]);
          assert (t.to, t2[i].to) in pairs;
        }
      } else {
        assert Answered(g1, g2, visited, q);
      }
    }
  }

  /** Whether every word of a1 is a word of a2. As a side effect a2 is determinized. A positive answer is always right.
      The answer is positive exactly when, besides, the determinized a2 has a run on every word on which a1 has one;
      that makes it exact when a1 has no transitions to dead states. */
  method SubsetOf(a1: Automaton, a2: Automaton) returns (r: bool)
    requires a1.Valid() && a2.Valid()
    modifies a2
    ensures a2.Valid() && SameLanguage(old(a2.Snapshot()), a2.Snapshot())
    ensures old(a2.deterministic) ==> a2.Snapshot() == old(a2.Snapshot())
    ensures a1 != a2 ==> a2.deterministic && (old(a2.deterministic) || a2.Clean())
    ensures r <==> RunsIncluded(old(a1.Snapshot()), a2.Snapshot())
    ensures r ==> forall w :: old(a1.Snapshot()).Language(w) ==> old(a2.Snapshot()).Language(w)
    ensures old(a1.Snapshot()).NoDeadTransitions() ==>
      (r <==> forall w :: old(a1.Snapshot()).Language(w) ==> old(a2.Snapshot()).Language(w))
  {
    if a1 == a2 {
      return true;
    }
    ghost var g1, g := a1.Snapshot(), a2.Snapshot();
    BasicOperations.Determinize(a2);
    r := Search(a1.Snapshot(), a2.Snapshot());
    if g1.NoDeadTransitions() {
      LiveRunsIncluded(g1, a2.Snapshot());
    }
  }

  lemma SearchEnds(g1: Graph, g2: Graph, visited: set<Pair>)
    requires Exploring(g1, g2, visited, [])
    ensures RunsIncluded(g1, g2)
  {
    forall w | g1.Language(w) ensures g2.Language(w) {
      NothingLeft(g1, g2, visited, w);
    }
    forall w | HasRun(g1, g1.initial, w) ensures HasRun(g2, g2.initial, w) {
      var q' :| g1.Reaches(g1.initial, w, q');
      var p' := RunsAnswered(g1, g2, visited, g1.initial, g2.initial, w, q');
    }
  }

  /** The worklist loop over pairs of states. */
  method Search(g1: Graph, g2: Graph) returns (r: bool)
    requires g1.Valid() && g2.Valid() && g2.Deterministic()
    ensures r <==> RunsIncluded(g1, g2)
  {
    var start := (g1.initial, g2.initial);
    var worklist: seq<Pair>, visited: set<Pair> := [start], {start};
    assert g1.Reaches(g1.initial, [], g1.initial) && g2.Reaches(g2.initial, [], g2.initial);
    while worklist != []
      invariant Exploring(g1, g2, visited, worklist)
      decreases Grid(g1, g2) - visited, |worklist|
    {
      var p := worklist[0];
      assert p in visited && Existing(g1, g2, p) && JointlyReached(g1, g2, p);
      if p.0 in g1.accept && p.1 !in g2.accept {
        ghost var u :| g1.Reaches(g1.initial, u, p.0) && g2.Reaches(g2.initial, u, p.1);
        RejectedAfter(g1, g2, p, u, []);
        return false;
      }
      var t1 := SortTransitions(g1.trans[p.0], false);
      var t2 := SortTransitions(g2.trans[p.1], false);
      SortedIsSeparated(g2, p.1, t2);
      var ok, pairs := CoverRow(t1, t2);
      if !ok {
        ghost var t, c: Char :| t in t1 && t.Covers(c) && !CoveredBy(t2, c);
        NotCovered(g2, p.1, t2, c);
        NotIncluded(g1, g2, p, t, c);
        return false;
      }
      ghost var visited0, worklist0 := visited, worklist;
      visited, worklist := Visit(g1, g2, visited, worklist[1..], pairs);
      ExploreStep(g1, g2, visited0, worklist0, p, t1, t2, pairs, visited, worklist);
      GridShrinks(g1, g2, visited0, visited, worklist0, worklist);
    }
    SearchEnds(g1, g2, visited);
    r := true;
  }

  lemma NotCovered(g: Graph, q: State, ts: seq<Transition>, c: Char)
    requires q in g.trans && (forall t :: t in ts <==> t in g.trans[q]) && !CoveredBy(ts, c)
    ensures !Covered(g.trans[q], c)
  {
    forall t | t in g.trans[q] ensures !t.Covers(c) {
      var i :| 0 <= i < |ts| && ts[i] == t;
    }
  }

  ghost function Grid(g1: Graph, g2: Graph): set<Pair> {
    set p, q | p in g1.trans.Keys && q in g2.trans.Keys :: (p, q)
  }

  lemma GridShrinks(g1: Graph, g2: Graph, visited: set<Pair>, visited': set<Pair>, worklist: seq<Pair>,
      worklist': seq<Pair>)
    requires visited <= visited' && Exploring(g1, g2, visited', worklist') && (visited' == visited ==>
        |worklist'| < |worklist|)
    ensures Grid(g1, g2) - visited' < Grid(g1, g2) - visited || (Grid(g1, g2) - visited' == Grid(g1, g2) - visited
        && |worklist'| < |worklist|)
  {
    if visited' != visited {
      var p :| p in visited' && p !in visited;
      assert Existing(g1, g2, p);
      assert p in Grid(g1, g2) - visited && p !in Grid(g1, g2) - visited';
    }
  }
}
