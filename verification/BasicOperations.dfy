/** Basic automata operations: subset construction, product, complement, difference, union. */
module BasicOperations {
  import opened Languages
  import opened Automata
  import opened Numberings

  // ----- determinization -----

  /** Where s goes on the i-th class of characters. */
  ghost function Move(g: Graph, points: seq<Char>, newstate: map<set<State>, State>, s: set<State>, i: nat): Transition
    requires IsPoints(points) && i < |points| && g.SuccSet(s, points[i]) in newstate
  {
    Transition(points[i], UpTo(points, i), newstate[g.SuccSet(s, points[i])])
  }

  ghost predicate Met(g: Graph, points: seq<Char>, newstate: map<set<State>, State>, s: set<State>, n: nat) {
    && IsPoints(points) && n <= |points|
    && forall i :: 0 <= i < n && g.SuccSet(s, points[i]) != {} ==> g.SuccSet(s, points[i]) in newstate
  }

  /** The moves of s on the first n classes. */
  ghost function Row(g: Graph, points: seq<Char>, newstate: map<set<State>, State>, s: set<State>,
      n: nat): set<Transition>
    requires Met(g, points, newstate, s, n)
  {
    if n == 0 then {}
    else if g.SuccSet(s, points[n - 1]) == {} then Row(g, points, newstate, s, n - 1)
    else Row(g, points, newstate, s, n - 1) + {Move(g, points, newstate, s, n - 1)}
  }

  lemma {:induction false} RowStays(g: Graph, points: seq<Char>, newstate: map<set<State>, State>, more: map<set<State>,
      State>, s: set<State>, n: nat)
    requires Met(g, points, newstate, s, n)
    requires forall p :: p in newstate ==> p in more && more[p] == newstate[p]
    ensures Met(g, points, more, s, n) && Row(g, points, more, s, n) == Row(g, points, newstate, s, n)
  {
    if n > 0 {
      RowStays(g, points, newstate, more, s, n - 1);
    }
  }

  lemma {:induction false} InRow(g: Graph, points: seq<Char>, newstate: map<set<State>, State>, s: set<State>, n: nat,
      t: Transition)
    requires Met(g, points, newstate, s, n)
    ensures t in Row(g, points, newstate, s, n) <==>
      exists i :: 0 <= i < n && g.SuccSet(s, points[i]) != {} && t == Move(g, points, newstate, s, i)
  {
    if n > 0 {
      InRow(g, points, newstate, s, n - 1, t);
    }
  }

  /** The loop of determinize over the start points, for one set s taken from the worklist. */
  method Expand(g: Graph, ghost region: set<State>, points: seq<Char>, s: set<State>, ghost sets0: seq<set<State>>,
                newstate0: map<set<State>, State>, worklist0: seq<set<State>>, next0: nat)
      returns (row: set<Transition>, newstate: map<set<State>, State>, worklist: seq<set<State>>, next: nat,
        ghost sets: seq<set<State>>)
    requires g.Valid() && Closed(g, region) && IsPoints(points) && s <= region
    requires Numbering(sets0, newstate0) && next0 == |sets0| && (forall i :: 0 <= i < |sets0| ==> sets0[i] <= region)
    ensures Numbering(sets, newstate) && next == |sets| && (forall i :: 0 <= i < |sets| ==> sets[i] <= region)
    ensures sets0 <= sets && worklist == worklist0 + sets[|sets0|..] && Extends(newstate0, newstate)
    ensures Met(g, points, newstate, s, |points|) && row == Row(g, points, newstate, s, |points|)
  {
    row, newstate, worklist, next, sets := {}, newstate0, worklist0, next0, sets0;
    for n := 0 to |points|
      invariant Numbering(sets, newstate) && next == |sets| && (forall i :: 0 <= i < |sets| ==> sets[i] <= region)
      invariant sets0 <= sets && worklist == worklist0 + sets[|sets0|..] && Extends(newstate0, newstate)
      invariant Met(g, points, newstate, s, n) && row == Row(g, points, newstate, s, n)
    {
      var p := g.SuccSet(s, points[n]);
      assert p <= region;
      if p != {} {
        if p !in newstate {
          worklist := worklist + [p];
          RowStays(g, points, newstate, newstate[p := next], s, n);
          newstate := newstate[p := next];
          next := next + 1;
          sets := sets + [p];
        }
        row := row + {Transition(points[n], UpTo(points, n), newstate[p])};
      }
    }
  }

  /** The state of the i-th set has its transitions and its acceptance. */
  ghost predicate Built(g: Graph, points: seq<Char>, newstate: map<set<State>, State>, sets: seq<set<State>>, h: Graph,
      i: nat)
    requires i < |sets|
  {
    && i in h.trans
    && Met(g, points, newstate, sets[i], |points|) && h.trans[i] == Row(g, points, newstate, sets[i], |points|)
    && (i in h.accept <==> sets[i] * g.accept != {})
  }

  /** h is the subset automaton of g from the first of the sets. */
  ghost predicate IsSubsetAutomaton(g: Graph, region: set<State>, points: seq<Char>, newstate: map<set<State>, State>,
      sets: seq<set<State>>, h: Graph) {
    && Closed(g, region) && PointsFit(g, region, points) && Numbering(sets, newstate)
    && sets != [] && h.initial == 0
    && (forall i :: 0 <= i < |sets| ==> sets[i] <= region && Built(g, points, newstate, sets, h, i))
    && (forall q :: q in h.trans <==> 0 <= q < |sets|) && h.accept <= h.trans.Keys
  }

  /** Of a whole row, exactly the move on the class of c covers c. */
  lemma RowOnClass(g: Graph, points: seq<Char>, newstate: map<set<State>, State>, s: set<State>, i: nat, c: Char,
      t: Transition)
    requires Met(g, points, newstate, s, |points|) && InClass(points, i, c)
    ensures t in Row(g, points, newstate, s, |points|) && t.Covers(c) <==>
      g.SuccSet(s, points[i]) != {} && t == Move(g, points, newstate, s, i)
  {
    InRow(g, points, newstate, s, |points|, t);
    if t in Row(g, points, newstate, s, |points|) && t.Covers(c) {
      var j :| 0 <= j < |points| && g.SuccSet(s, points[j]) != {} && t == Move(g, points, newstate, s, j);
      ClassIsUnique(points, i, j, c);
    }
  }

  lemma SubsetSucc(g: Graph, region: set<State>, points: seq<Char>, newstate: map<set<State>, State>,
      sets: seq<set<State>>, h: Graph, q: State, c: Char)
    requires IsSubsetAutomaton(g, region, points, newstate, sets, h) && q < |sets|
    ensures g.SuccSet(sets[q], c) == {} ==> h.Succ(q, c) == {}
    ensures g.SuccSet(sets[q], c) != {} ==>
        g.SuccSet(sets[q], c) in newstate && h.Succ(q, c) == {newstate[g.SuccSet(sets[q], c)]}
  {
    var s := sets[q];
    assert Built(g, points, newstate, sets, h, q);
    var i := ClassOf(points, c);
    FittingSucc(g, region, points, s, i, c);
    forall t ensures t in h.Out(q) && t.Covers(c) <==> g.SuccSet(s, c) != {} && t == Move(g, points, newstate, s, i) {
      RowOnClass(g, points, newstate, s, i, c, t);
    }
    if g.SuccSet(s, c) != {} {
      assert Move(g, points, newstate, s, i) in h.Out(q) && Move(g, points, newstate, s, i).Covers(c);
      assert newstate[g.SuccSet(s, c)] in h.Succ(q, c);
    }
  }

  /** The state of a set accepts what some member of the set accepts. */
  lemma {:induction false} SubsetAccepts(g: Graph, region: set<State>, points: seq<Char>, newstate: map<set<State>,
      State>, sets: seq<set<State>>, h: Graph, q: State, w: Word)
    requires IsSubsetAutomaton(g, region, points, newstate, sets, h) && q < |sets|
    ensures h.Accepts(q, w) <==> g.AcceptsFrom(sets[q], w)
    decreases |w|
  {
    assert Built(g, points, newstate, sets, h, q);
    if w == [] {
      assert forall p :: p in sets[q] && g.Accepts(p, w) ==> p in sets[q] * g.accept;
    } else {
      SubsetSucc(g, region, points, newstate, sets, h, q, w[0]);
      AcceptsFromStep(g, sets[q], w);
      var s := g.SuccSet(sets[q], w[0]);
      if s != {} {
        var p := newstate[s];
        assert p in h.Succ(q, w[0]);
        SubsetAccepts(g, region, points, newstate, sets, h, p, w[1..]);
      }
    }
  }

  /** The class a transition of the subset automaton was made for. */
  lemma MoveOf(g: Graph, region: set<State>, points: seq<Char>, newstate: map<set<State>, State>, sets: seq<set<State>>,
      h: Graph, q: State, t: Transition)
      returns (i: nat)
    requires IsSubsetAutomaton(g, region, points, newstate, sets, h) && q in h.trans && t in h.trans[q]
    ensures i < |points| && t.min == points[i] && t.max == UpTo(points, i) && t.to in h.trans
    ensures g.SuccSet(sets[q], points[i]) in newstate && t.to == newstate[g.SuccSet(sets[q], points[i])]
  {
    assert Built(g, points, newstate, sets, h, q);
    InRow(g, points, newstate, sets[q], |points|, t);
    i :| 0 <= i < |points| && g.SuccSet(sets[q], points[i]) != {} && t == Move(g, points, newstate, sets[q], i);
  }

  lemma ClassesAreApart(points: seq<Char>, i: nat, j: nat)
    requires IsPoints(points) && i < j < |points|
    ensures UpTo(points, i) < points[j]
  {
    assert i + 1 == j || points[i + 1] < points[j];
  }

  lemma SubsetIsValid(g: Graph, region: set<State>, points: seq<Char>, newstate: map<set<State>, State>,
      sets: seq<set<State>>, h: Graph)
    requires IsSubsetAutomaton(g, region, points, newstate, sets, h)
    ensures h.Valid() && h.Deterministic()
  {
    forall q, t | q in h.trans && t in h.trans[q] ensures t.min <= t.max && t.to in h.trans {
      var i := MoveOf(g, region, points, newstate, sets, h, q, t);
    }
    forall q, t, u | q in h.trans && t in h.trans[q] && u in h.trans[q] && t != u
        ensures t.max < u.min || u.max < t.min
    {
      var i := MoveOf(g, region, points, newstate, sets, h, q, t);
      var j := MoveOf(g, region, points, newstate, sets, h, q, u);
      if i < j {
        ClassesAreApart(points, i, j);
      } else if j < i {
        ClassesAreApart(points, j, i);
      }
    }
  }

  /** The first done sets have their states. */
  ghost predicate Progress(g: Graph, region: set<State>, points: seq<Char>, newstate: map<set<State>, State>,
      sets: seq<set<State>>, h: Graph, done: nat) {
    && done <= |sets| && Numbering(sets, newstate)
    && (forall i :: 0 <= i < |sets| ==> sets[i] <= region)
    && (forall i :: 0 <= i < done ==> Built(g, points, newstate, sets, h, i))
    && (forall q :: q in h.trans <==> 0 <= q < done) && h.accept <= h.trans.Keys && h.initial == 0
  }

  lemma ProgressStep(g: Graph, region: set<State>, points: seq<Char>, newstate: map<set<State>, State>,
      sets: seq<set<State>>, h: Graph, done: nat,
                     more: map<set<State>, State>, sets': seq<set<State>>, row: set<Transition>)
    requires Progress(g, region, points, newstate, sets, h, done) && done < |sets|
    requires sets <= sets' && Extends(newstate, more) && Numbering(sets', more)
    requires forall i :: 0 <= i < |sets'| ==> sets'[i] <= region
    requires Met(g, points, more, sets[done], |points|) && row == Row(g, points, more, sets[done], |points|)
    ensures Progress(g, region, points, more, sets',
      Graph(0, if sets[done] * g.accept != {} then h.accept + {done} else h.accept, h.trans[done := row]), done + 1)
  {
    var h' := Graph(0, if sets[done] * g.accept != {} then h.accept + {done} else h.accept, h.trans[done := row]);
    forall i | 0 <= i < done + 1 ensures Built(g, points, more, sets', h', i) {
      if i < done {
        assert Built(g, points, newstate, sets, h, i);
        RowStays(g, points, newstate, more, sets[i], |points|);
      }
    }
  }

  /** The worklist loop of determinize. */
  method SubsetConstruction(g: Graph, ghost region: set<State>, points: seq<Char>, initialset: set<State>)
      returns (h: Graph, next: nat, ghost sets: seq<set<State>>, ghost numbering: map<set<State>, State>)
    requires g.Valid() && Closed(g, region) && PointsFit(g, region, points) && initialset <= region
    ensures IsSubsetAutomaton(g, region, points, numbering, sets, h) && next == |sets| && sets[0] == initialset
  {
    var worklist: seq<set<State>> := [initialset];
    var newstate: map<set<State>, State> := map[initialset := 0];
    h, next, sets := Graph(0, {}, map[]), 1, [initialset];
    ghost var done := 0;
    while worklist != []
      invariant Progress(g, region, points, newstate, sets, h, done)
      invariant |sets| == next && worklist == sets[done..] && sets != [] && sets[0] == initialset
      decreases Unmet(region, newstate), |worklist|
    {
      var s := worklist[0];
      worklist := worklist[1..];
      var r := newstate[s];
      var accept := if s * g.accept != {} then h.accept + {r} else h.accept;
      ghost var newstate0, sets0 := newstate, sets;
      var row;
      row, newstate, worklist, next, sets := Expand(g, region, points, s, sets, newstate, worklist, next);
      ProgressStep(g, region, points, newstate0, sets0, h, done, newstate, sets, row);
      h := Graph(0, accept, h.trans[r := row]);
      done := done + 1;
      UnmetShrinks(region, newstate0, newstate, sets);
      SameKeysSameCount(newstate0, newstate, sets0, sets);
    }
    numbering := newstate;
  }

  ghost function Unmet(region: set<State>, newstate: map<set<State>, State>): set<set<State>> {
    (set s | s <= region) - newstate.Keys
  }

  lemma UnmetShrinks(region: set<State>, newstate: map<set<State>, State>, more: map<set<State>, State>,
      sets: seq<set<State>>)
    requires Extends(newstate, more) && Numbering(sets, more) && (forall i :: 0 <= i < |sets| ==> sets[i] <= region)
    ensures Unmet(region, more) <= Unmet(region, newstate)
    ensures more.Keys != newstate.Keys ==> Unmet(region, more) < Unmet(region, newstate)
  {
    if more.Keys != newstate.Keys {
      var s :| s in more && s !in newstate;
      assert s in Unmet(region, newstate) && s !in Unmet(region, more);
    }
  }

  /** Sets that all differ, each at the number it was given. */
  ghost predicate Distinct(sets: seq<set<State>>) {
    forall i, j :: 0 <= i < j < |sets| ==> sets[i] != sets[j]
  }

  /** What a determinized automaton has to do with the sets of states it was made from. */
  ghost predicate Determinizes(g: Graph, sets: seq<set<State>>, h: Graph) {
    && Distinct(sets)
    && (forall q :: q in h.trans ==> q < |sets| && h.Reachable(q))
    && (forall q, w :: q in h.trans ==> (h.Accepts(q, w) <==> g.AcceptsFrom(sets[q], w)))
  }

  lemma SubsetDeterminizes(g: Graph, region: set<State>, points: seq<Char>, newstate: map<set<State>, State>,
      sets: seq<set<State>>, h: Graph, k: Graph)
    requires IsSubsetAutomaton(g, region, points, newstate, sets, h)
    requires SameRightOn(h, k) && forall q :: q in k.trans ==> h.Reachable(q) && k.Reachable(q)
    ensures Determinizes(g, sets, k)
  {
    assert h.initial in h.trans && Closed(h, h.trans.Keys) by {
      SubsetIsValid(g, region, points, newstate, sets, h);
    }
    forall q, w | q in k.trans ensures q < |sets| && (k.Accepts(q, w) <==> g.AcceptsFrom(sets[q], w)) {
      SubsetAccepts(g, region, points, newstate, sets, h, q, w);
    }
  }

  /** Determinizes the automaton using the given set of initial states; inner is any set of states that holds them and
      that no transition leaves. */
  method DeterminizeFrom(a: Automaton, initialset: set<State>, ghost inner: set<State>)
      returns (ghost sets: seq<set<State>>)
    requires a.Valid() && initialset <= inner && Closed(a.Snapshot(), inner)
    requires forall q :: q in initialset ==> a.Snapshot().Reachable(q) || a.trans[q] <= a.trans[a.initial]
    modifies a
    ensures a.Clean() && a.deterministic && a.initial == 0 && a.initial in a.trans
    ensures sets != [] && sets[0] == initialset && Determinizes(old(a.Snapshot()), sets, a.Snapshot())
    ensures forall i {:trigger sets[i]} :: 0 <= i < |sets| ==> sets[i] <= inner
  {
    ghost var g := a.Snapshot();
    var points := a.GetStartPoints();
    ghost var region := InitialRegion(g, initialset, points, inner);
    var h, next;
    ghost var numbering;
    h, next, sets, numbering := SubsetConstruction(a.Snapshot(), region, points, initialset);
    SubsetIsValid(g, region, points, numbering, sets, h);
    a.initial, a.accept, a.trans, a.nextId, a.deterministic := h.initial, h.accept, h.trans, next, true;
    assert a.Snapshot() == h;
    a.RemoveDeadTransitions();
    SubsetDeterminizes(g, region, points, numbering, sets, h, a.Snapshot());
  }

  /** The states whose transitions the start points speak about: the reachable ones and the new initial ones. */
  lemma InitialRegion(g: Graph, initialset: set<State>, points: seq<Char>, inner: set<State>)
      returns (region: set<State>)
    requires g.Valid() && initialset <= inner && Closed(g, inner)
    requires forall q :: q in initialset ==> g.Reachable(q) || g.trans[q] <= g.trans[g.initial]
    requires PointsFit(g, g.ReachableStates(), points)
    ensures initialset <= region <= inner && Closed(g, region) && PointsFit(g, region, points)
  {
    var reachable := g.ReachableStates();
    assert g.initial in reachable;
    region := (reachable + initialset) * inner;
    forall q, t | q in region && t in g.Out(q)
      ensures exists p :: p in reachable && t in g.Out(p)
      ensures t.to in region
    {
      if q in reachable {
        assert g.Reachable(q);
        ReachableStep(g, q, t);
      } else {
        assert t in g.Out(g.initial);
        ReachableStep(g, g.initial, t);
      }
    }
  }

  lemma AcceptsFromOne(g: Graph, q: State, w: Word)
    ensures g.AcceptsFrom({q}, w) <==> g.Accepts(q, w)
  {
    if g.Accepts(q, w) {
      assert q in {q};
    }
  }

  /** Determinizes the automaton, unless it is marked as deterministic already. */
  method Determinize(a: Automaton)
    requires a.Valid()
    modifies a
    ensures a.Valid() && a.deterministic && SameLanguage(old(a.Snapshot()), a.Snapshot())
    ensures old(a.deterministic) ==> a.Snapshot() == old(a.Snapshot()) && a.nextId == old(a.nextId)
    ensures !old(a.deterministic) ==> a.Clean()
  {
    if a.deterministic {
      return;
    }
    ghost var g := a.Snapshot();
    assert g.Reachable(g.initial);
    ghost var sets := DeterminizeFrom(a, {a.initial}, a.trans.Keys);
    forall w ensures g.Language(w) <==> a.Snapshot().Language(w) {
      AcceptsFromOne(g, g.initial, w);
      assert a.Snapshot().Accepts(a.initial, w) <==> g.AcceptsFrom(sets[a.initial], w);
    }
  }
}
