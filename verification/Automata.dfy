/** The Automaton object: explicit states and transitions, and the operations that rewrite them in place. */
module Automata {
  import opened Languages

  // ----- sorting transitions (TransitionComparator) -----

  /** The order of TransitionComparator: (to, min, reverse max) or (min, reverse max, to). */
  predicate Before(t: Transition, u: Transition, toFirst: bool) {
    if toFirst && t.to != u.to then t.to < u.to
    else if t.min != u.min then t.min < u.min
    else if t.max != u.max then t.max > u.max
    else t.to <= u.to
  }

  ghost predicate Sorted(s: seq<Transition>, toFirst: bool) {
    forall i, j :: 0 <= i < j < |s| ==> Before(s[i], s[j], toFirst)
  }

  function Insert(t: Transition, s: seq<Transition>, toFirst: bool): (r: seq<Transition>)
    requires Sorted(s, toFirst)
    ensures Sorted(r, toFirst)
    ensures forall u :: u in r <==> u == t || u in s
    ensures |r| == |s| + 1
  {
    if s == [] || Before(t, s[0], toFirst) then [t] + s
    else
      var rest := Insert(t, s[1..], toFirst);
      assert forall u :: u in s <==> u == s[0] || u in s[1..];
      assert forall u :: u in rest ==> Before(s[0], u, toFirst);
      [s[0]] + rest
  }

  ghost predicate Unrepeated(s: seq<Transition>) {
    forall i, j :: 0 <= i < j < |s| ==> s[i] != s[j]
  }

  lemma {:induction false} InsertUnrepeated(t: Transition, s: seq<Transition>, toFirst: bool)
    requires Sorted(s, toFirst) && Unrepeated(s) && t !in s
    ensures Unrepeated(Insert(t, s, toFirst))
  {
    if s != [] && !Before(t, s[0], toFirst) {
      InsertUnrepeated(t, s[1..], toFirst);
      assert s[0] !in Insert(t, s[1..], toFirst);
    }
  }

  method SortTransitions(ts: set<Transition>, toFirst: bool) returns (s: seq<Transition>)
    ensures Sorted(s, toFirst) && Unrepeated(s)
    ensures forall t :: t in s <==> t in ts
  {
    s := [];
    var todo := ts;
    while todo != {}
      invariant todo <= ts && Sorted(s, toFirst) && Unrepeated(s)
      invariant forall t :: t in s <==> t in ts - todo
    {
      var t :| t in todo;
      InsertUnrepeated(t, s, toFirst);
      s := Insert(t, s, toFirst);
      todo := todo - {t};
    }
  }

  // ----- filling the gaps (totalize) -----

  predicate Covered(ts: set<Transition>, c: Char) {
    exists t :: t in ts && t.Covers(c)
  }

  /** The gaps of ts: disjoint intervals to the sink on exactly the characters that ts leaves out. */
  ghost predicate FillsGaps(ts: set<Transition>, gaps: set<Transition>, sink: State) {
    && (forall u {:trigger u in gaps} :: u in gaps ==> u.to == sink && u.min <= u.max)
    && (forall c: Char :: Covered(ts, c) <==> !Covered(gaps, c))
    && (forall t, u {:trigger t in gaps, u in gaps} :: t in gaps && u in gaps && t != u ==>
         t.max < u.min || u.max < t.min)
  }

  /** What the sweep knows below maxi, every gap lying in front of the last transition, which starts at lo. */
  ghost predicate Swept(seen: set<Transition>, gaps: set<Transition>, lo: int, maxi: int, sink: State) {
    && 0 <= maxi <= MAX_CHAR + 1
    && (forall t {:trigger t in seen} :: t in seen ==> t.max < maxi)
    && (forall u {:trigger u in gaps} :: u in gaps ==> u.to == sink && u.min <= u.max < lo && u.max < maxi)
    && (forall t, u {:trigger t in gaps, u in gaps} :: t in gaps && u in gaps && t != u ==>
         t.max < u.min || u.max < t.min)
    && (forall c: Char :: c < maxi ==> (Covered(seen, c) <==> !Covered(gaps, c)))
  }

  method FindGaps(ts: set<Transition>, sink: State) returns (gaps: set<Transition>)
    requires forall t {:trigger t in ts} :: t in ts ==> t.min <= t.max
    ensures FillsGaps(ts, gaps, sink)
  {
    var st := SortTransitions(ts, false);
    gaps := {};
    var maxi: int := MIN_CHAR;
    ghost var seen: set<Transition>, lo := {}, 0;
    for i := 0 to |st|
      invariant seen == set t | t in st[..i]
      invariant Swept(seen, gaps, lo, maxi, sink)
      invariant forall j :: i <= j < |st| ==> lo <= st[j].min
    {
      var t := st[i];
      assert t in ts;
      assert forall j :: i < j < |st| ==> Before(t, st[j], false);
      ghost var gaps0, maxi0 := gaps, maxi;
      if t.min > maxi {
        gaps := gaps + {Transition(maxi, t.min - 1, sink)};
      }
      if t.max + 1 > maxi {
        maxi := t.max + 1;
      }
      SweepStep(seen, t, gaps0, gaps, lo, maxi0, maxi, sink);
      seen, lo := seen + {t}, t.min;
    }
    assert seen == ts;
    ghost var gaps0 := gaps;
    if maxi <= MAX_CHAR {
      gaps := gaps + {Transition(maxi, MAX_CHAR, sink)};
    }
    SweepEnd(ts, gaps0, gaps, lo, maxi, sink);
  }

  /** One turn of the sweep: the gap in front of t, if any, covers exactly what no transition seen so far covers. */
  lemma SweepStep(seen: set<Transition>, t: Transition, gaps0: set<Transition>, gaps: set<Transition>, lo: int,
      maxi0: int, maxi: int, sink: State)
    requires Swept(seen, gaps0, lo, maxi0, sink)
    requires lo <= t.min <= t.max
    requires maxi == (if t.max + 1 > maxi0 then t.max + 1 else maxi0)
    requires gaps == if t.min > maxi0 then gaps0 + {Transition(maxi0, t.min - 1, sink)} else gaps0
    ensures Swept(seen + {t}, gaps, t.min, maxi, sink)
  {
    forall c: Char | c < maxi ensures Covered(seen + {t}, c) <==> !Covered(gaps, c) {
      assert t.Covers(c) ==> Covered(seen + {t}, c);
      if c < maxi0 {
        assert Covered(gaps0, c) <==> Covered(gaps, c);
        assert Covered(seen, c) ==> Covered(seen + {t}, c);
      } else if c < t.min {
        assert Transition(maxi0, t.min - 1, sink) in gaps && Transition(maxi0, t.min - 1, sink).Covers(c);
      }
    }
  }

  lemma SweepEnd(ts: set<Transition>, gaps0: set<Transition>, gaps: set<Transition>, lo: int, maxi: int, sink: State)
    requires Swept(ts, gaps0, lo, maxi, sink)
    requires gaps == if maxi <= MAX_CHAR then gaps0 + {Transition(maxi, MAX_CHAR, sink)} else gaps0
    ensures FillsGaps(ts, gaps, sink)
  {
    forall c: Char ensures Covered(ts, c) <==> !Covered(gaps, c) {
      if c < maxi {
        assert Covered(gaps, c) <==> Covered(gaps0, c);
      } else {
        assert Transition(maxi, MAX_CHAR, sink) in gaps && Transition(maxi, MAX_CHAR, sink).Covers(c);
      }
    }
  }

  // ----- combining intervals (reduce) -----

  predicate Hits(ts: set<Transition>, q: State, c: Char) {
    exists t :: t in ts && t.to == q && t.Covers(c)
  }

  ghost predicate Apart(t: Transition, u: Transition) {
    t.to != u.to || t.max + 1 < u.min || u.max + 1 < t.min
  }

  ghost predicate Combined(ts: set<Transition>, rs: set<Transition>) {
    && (forall q, c: Char :: Hits(ts, q, c) <==> Hits(rs, q, c))
    && (forall r {:trigger r in rs} :: r in rs ==> r.min <= r.max)
    && (forall t, u {:trigger t in rs, u in rs} :: t in rs && u in rs && t != u ==> Apart(t, u))
  }

  /** rs holds the finished intervals and cur the one still growing; last is the transition seen last. */
  ghost predicate Combining(seen: set<Transition>, rs: set<Transition>, cur: Transition, last: Transition) {
    && Combined(seen, rs + {cur})
    && cur.to == last.to && cur.min <= last.min
    && (forall r {:trigger r in rs} :: r in rs ==> r.to < cur.to || (r.to == cur.to && r.max + 1 < cur.min))
  }

  lemma CombineStep(seen: set<Transition>, rs: set<Transition>, cur: Transition, last: Transition, t: Transition)
    requires Combining(seen, rs, cur, last) && Before(last, t, true) && t.min <= t.max
    ensures t.to == cur.to && t.min <= cur.max + 1 ==>
      Combining(seen + {t}, rs, cur.(max := if t.max > cur.max then t.max else cur.max), t)
    ensures !(t.to == cur.to && t.min <= cur.max + 1) ==> Combining(seen + {t}, rs + {cur}, t, t)
  {
    if t.to == cur.to && t.min <= cur.max + 1 {
      var cur' := cur.(max := if t.max > cur.max then t.max else cur.max);
      forall q, c: Char ensures Hits(seen + {t}, q, c) <==> Hits(rs + {cur'}, q, c) {
        assert Hits(seen + {t}, q, c) <==> Hits(seen, q, c) || (t.to == q && t.Covers(c));
        assert Hits(rs + {cur}, q, c) <==> Hits(rs, q, c) || (cur.to == q && cur.Covers(c));
        assert Hits(rs + {cur'}, q, c) <==> Hits(rs, q, c) || (cur'.to == q && cur'.Covers(c));
      }
    } else {
      forall q, c: Char ensures Hits(seen + {t}, q, c) <==> Hits(rs + {cur} + {t}, q, c) {
        assert Hits(seen + {t}, q, c) <==> Hits(seen, q, c) || (t.to == q && t.Covers(c));
        assert Hits(rs + {cur} + {t}, q, c) <==> Hits(rs + {cur}, q, c) || (t.to == q && t.Covers(c));
      }
    }
  }

  method CombineIntervals(ts: set<Transition>) returns (rs: set<Transition>)
    requires forall t {:trigger t in ts} :: t in ts ==> t.min <= t.max
    ensures Combined(ts, rs)
  {
    var st := SortTransitions(ts, true);
    rs := {};
    if st == [] {
      assert ts == {};
      return;
    }
    var cur := st[0];
    assert cur in ts;
    ghost var seen := {st[0]};
    for i := 1 to |st|
      invariant seen == set t | t in st[..i]
      invariant Combining(seen, rs, cur, st[i - 1])
    {
      var t := st[i];
      assert t in ts;
      assert Before(st[i - 1], t, true);
      CombineStep(seen, rs, cur, st[i - 1], t);
      if t.to == cur.to && t.min <= cur.max + 1 {
        if t.max > cur.max {
          cur := cur.(max := t.max);
        }
      } else {
        rs := rs + {cur};
        cur := t;
      }
      seen := seen + {t};
    }
    rs := rs + {cur};
    assert seen == ts;
  }

  // ----- what the rewriting operations mean for languages -----

  /** h is g with every state's intervals combined. */
  ghost predicate IsReduction(g: Graph, h: Graph) {
    && g.initial == h.initial && g.accept == h.accept && g.trans.Keys == h.trans.Keys
    && forall q :: q in g.trans ==> Combined(g.trans[q], h.trans[q])
  }

  lemma ReductionSucc(g: Graph, h: Graph, q: State, c: Char)
    requires IsReduction(g, h)
    ensures g.Succ(q, c) == h.Succ(q, c)
  {
    if q in g.trans {
      forall p ensures p in g.Succ(q, c) <==> p in h.Succ(q, c) {
        assert p in g.Succ(q, c) <==> Hits(g.trans[q], p, c);
        assert p in h.Succ(q, c) <==> Hits(h.trans[q], p, c);
      }
    }
  }

  lemma ReductionKeepsLanguages(g: Graph, h: Graph)
    requires IsReduction(g, h)
    ensures forall q, w :: g.Accepts(q, w) <==> h.Accepts(q, w)
    ensures h.Reduced()
  {
    forall q, c: Char ensures g.Succ(q, c) == h.Succ(q, c) {
      ReductionSucc(g, h, q, c);
    }
    forall q, w ensures g.Accepts(q, w) <==> h.Accepts(q, w) {
      SameSuccessorsAgree(g, h, q, w);
    }
    forall q, t, u | q in h.trans && t in h.trans[q] && u in h.trans[q] && t != u ensures Apart(t, u) {}
  }

  lemma ReductionStaysDeterministic(g: Graph, h: Graph)
    requires IsReduction(g, h) && g.Deterministic()
    ensures h.Deterministic()
  {
    forall q, t, u | q in h.trans && t in h.trans[q] && u in h.trans[q] && t != u
      ensures t.max < u.min || u.max < t.min
    {
      if t.min <= u.max && u.min <= t.max {
        var c: Char := if t.min > u.min then t.min else u.min;
        assert t.Covers(c) && u.Covers(c);
        assert t.to in h.Succ(q, c) && u.to in h.Succ(q, c);
        ReductionSucc(g, h, q, c);
        DeterministicStep(g, q, c, t.to, u.to);
      }
    }
  }

  /** Dropping the transitions that lead nowhere keeps every right language. */
  lemma {:induction false} DeadRemovalKeepsLanguages(g: Graph, h: Graph, q: State, w: Word)
    requires g.Valid() && q in h.trans && h.accept == g.accept * h.trans.Keys && h.trans.Keys <= g.trans.Keys
    requires forall p :: p in h.trans ==> h.trans[p] == set t | t in g.trans[p] && g.Live(t.to)
    requires forall p, t :: p in h.trans && t in g.trans[p] ==> t.to in h.trans
    ensures g.Accepts(q, w) <==> h.Accepts(q, w)
    decreases |w|
  {
    if w != [] {
      forall p | p in g.Succ(q, w[0]) ensures p in h.trans && (g.Accepts(p, w[1..]) <==> h.Accepts(p, w[1..])) {
        DeadRemovalKeepsLanguages(g, h, p, w[1..]);
      }
      assert forall p :: p in h.Succ(q, w[0]) ==> p in g.Succ(q, w[0]);
      assert forall p :: p in g.Succ(q, w[0]) && g.Live(p) ==> p in h.Succ(q, w[0]);
    }
  }

  /** Transitions to a sink on the missing characters keep every right language. */
  lemma {:induction false} SinkKeepsLanguages(g: Graph, h: Graph, sink: State, q: State, w: Word)
    requires IsTotalized(g, h, sink) && q in g.trans
    ensures g.Accepts(q, w) <==> h.Accepts(q, w)
    decreases |w|
  {
    if w != [] {
      TotalizedSucc(g, h, sink, q, w[0]);
      forall p | p in g.Succ(q, w[0]) ensures g.Accepts(p, w[1..]) <==> h.Accepts(p, w[1..]) {
        SinkKeepsLanguages(g, h, sink, p, w[1..]);
      }
      if h.Succ(q, w[0]) == {sink} {
        SinkIsDead(g, h, sink, w[1..]);
      }
    }
  }

  ghost predicate FilledAt(trans: map<State, set<Transition>>, filled: map<State, set<Transition>>, sink: State,
      q: State)
    requires q in trans && q in filled
  {
    trans[q] <= filled[q] && FillsGaps(trans[q], filled[q] - trans[q], sink)
  }

  /** h adds to each state of g transitions to a fresh looping sink that fill its gaps. */
  ghost predicate IsTotalized(g: Graph, h: Graph, sink: State) {
    && g.Valid() && sink !in g.trans && h.trans.Keys == g.trans.Keys + {sink}
    && h.initial == g.initial && h.accept == g.accept
    && h.trans[sink] == {Transition(MIN_CHAR, MAX_CHAR, sink)}
    && forall q {:trigger FilledAt(g.trans, h.trans, sink, q)} :: q in g.trans ==> FilledAt(g.trans, h.trans, sink, q)
  }

  lemma TotalizedSucc(g: Graph, h: Graph, sink: State, q: State, c: Char)
    requires IsTotalized(g, h, sink)
    ensures q in g.trans ==> h.Succ(q, c) == if g.Succ(q, c) != {} then g.Succ(q, c) else {sink}
    ensures h.Succ(sink, c) == {sink}
  {
    if q in g.trans {
      assert FilledAt(g.trans, h.trans, sink, q);
      var gaps := h.trans[q] - g.trans[q];
      assert forall t :: t in h.trans[q] <==> t in g.trans[q] || t in gaps;
      if Covered(g.trans[q], c) {
        var t :| t in g.trans[q] && t.Covers(c);
        assert t.to in g.Succ(q, c);
        assert forall u :: u in gaps ==> !u.Covers(c);
      } else {
        var u :| u in gaps && u.Covers(c);
        assert u.to in h.Succ(q, c);
        assert forall t :: t in g.trans[q] ==> !t.Covers(c);
      }
    }
    assert Transition(MIN_CHAR, MAX_CHAR, sink).Covers(c);
  }

  lemma {:induction false} SinkIsDead(g: Graph, h: Graph, sink: State, w: Word)
    requires IsTotalized(g, h, sink)
    ensures !h.Accepts(sink, w)
    decreases |w|
  {
    if w != [] {
      TotalizedSucc(g, h, sink, sink, w[0]);
      SinkIsDead(g, h, sink, w[1..]);
    }
  }

  /** The loop of totalize over the states it found. */
  method FillStates(trans: map<State, set<Transition>>, sink: State) returns (filled: map<State, set<Transition>>)
    requires sink !in trans
    requires forall q, t {:trigger t in trans[q]} :: q in trans && t in trans[q] ==> t.min <= t.max && t.to != sink
    ensures filled.Keys == trans.Keys + {sink}
    ensures filled[sink] == {Transition(MIN_CHAR, MAX_CHAR, sink)}
    ensures forall q {:trigger FilledAt(trans, filled, sink, q)} :: q in trans ==> FilledAt(trans, filled, sink, q)
  {
    filled := map[sink := {Transition(MIN_CHAR, MAX_CHAR, sink)}];
    var todo := trans.Keys;
    while todo != {}
      invariant todo <= trans.Keys && filled.Keys == trans.Keys - todo + {sink}
      invariant filled[sink] == {Transition(MIN_CHAR, MAX_CHAR, sink)}
      invariant forall q :: q in trans.Keys - todo ==> FilledAt(trans, filled, sink, q)
    {
      var q :| q in todo;
      todo := todo - {q};
      var gaps := FindGaps(trans[q], sink);
      assert trans[q] + gaps - trans[q] == gaps;
      ghost var before := filled;
      filled := filled[q := trans[q] + gaps];
      forall p | p in trans.Keys - todo ensures FilledAt(trans, filled, sink, p) {
        assert p != q ==> FilledAt(trans, before, sink, p);
      }
    }
  }

  lemma TotalizedKeepsLanguages(g: Graph, states: set<State>, h: Graph, sink: State)
    requires Closed(g, states) && IsTotalized(g.Restrict(states), h, sink)
    ensures forall q, w :: q in states ==> (h.Accepts(q, w) <==> g.Accepts(q, w))
  {
    forall q, w | q in states ensures h.Accepts(q, w) <==> g.Accepts(q, w) {
      RestrictKeepsLanguages(g, states, q, w);
      SinkKeepsLanguages(g.Restrict(states), h, sink, q, w);
    }
  }

  lemma TotalizedIsTotal(g: Graph, h: Graph, sink: State)
    requires IsTotalized(g, h, sink)
    ensures h.Valid() && h.Total()
    ensures g.Deterministic() ==> h.Deterministic()
  {
    forall q, c: Char | q in h.trans ensures h.Succ(q, c) != {} {
      TotalizedSucc(g, h, sink, q, c);
    }
    forall q, t | q in h.trans && t in h.trans[q] ensures t.min <= t.max && t.to in h.trans {
      if q != sink { assert FilledAt(g.trans, h.trans, sink, q) && (t in g.trans[q] || t in h.trans[q] - g.trans[q]); }
    }
    if g.Deterministic() {
      forall q, t, u | q in h.trans && t in h.trans[q] && u in h.trans[q] && t != u
          ensures t.max < u.min || u.max < t.min
      {
        if q != sink {
          assert FilledAt(g.trans, h.trans, sink, q);
          var gaps := h.trans[q] - g.trans[q];
          if t in gaps && u in g.trans[q] {
            DisjointCover(g.trans[q], gaps, u, t);
          } else if u in gaps && t in g.trans[q] {
            DisjointCover(g.trans[q], gaps, t, u);
          }
        }
      }
    }
  }

  lemma DisjointCover(ts: set<Transition>, gaps: set<Transition>, t: Transition, u: Transition)
    requires t in ts && u in gaps && t.min <= t.max && u.min <= u.max
    requires forall c: Char :: Covered(ts, c) <==> !Covered(gaps, c)
    ensures t.max < u.min || u.max < t.min
  {
    var c: Char := if t.min > u.min then t.min else u.min;
    assert !(t.Covers(c) && u.Covers(c)) by {
      assert Covered(ts, c) <==> !Covered(gaps, c);
    }
  }

  /** The worklist search of getStates. */
  method FindStates(g: Graph) returns (visited: set<State>)
    requires g.Valid()
    ensures visited == g.ReachableStates() && g.initial in visited
    ensures forall q :: q in visited <==> g.Reachable(q)
    ensures forall q, t {:trigger t in g.trans[q]} :: q in visited && t in g.trans[q] ==> t.to in visited
  {
    visited := {g.initial};
    var worklist: seq<State> := [g.initial];
    while worklist != []
      invariant Searching(g, visited, worklist)
      decreases g.trans.Keys - visited, |worklist|
    {
      var s := worklist[0];
      ghost var visited0, worklist0 := visited, worklist;
      worklist := worklist[1..];
      var tr := g.trans[s];
      while tr != {}
        invariant tr <= g.trans[s]
        invariant visited0 <= visited <= g.trans.Keys
        invariant visited == visited0 ==> worklist == worklist0[1..]
        invariant forall q :: q in worklist ==> q in visited
        invariant forall q :: q in visited ==> g.Reachable(q)
        invariant forall t :: t in g.trans[s] - tr ==> t.to in visited
        invariant forall q :: q in visited0 && q !in worklist ==> q !in worklist0 || q == s
        invariant forall q :: q in visited && q !in visited0 ==> q in worklist
      {
        var t :| t in tr;
        tr := tr - {t};
        if t.to !in visited {
          ReachableStep(g, s, t);
          visited := visited + {t.to};
          worklist := worklist + [t.to];
        }
      }
    }
    SearchIsComplete(g, visited);
  }

  ghost predicate Searching(g: Graph, visited: set<State>, worklist: seq<State>) {
    && g.initial in visited && visited <= g.trans.Keys
    && (forall q :: q in worklist ==> q in visited)
    && (forall q :: q in visited ==> g.Reachable(q))
    && (forall q, t {:trigger t in g.trans[q]} :: q in visited && q !in worklist && t in g.trans[q] ==> t.to in visited)
  }

  lemma SearchIsComplete(g: Graph, visited: set<State>)
    requires g.Valid() && Searching(g, visited, [])
    ensures visited == g.ReachableStates() && forall q :: q in visited <==> g.Reachable(q)
  {
    assert Closed(g, visited);
  }

  // ----- the backward search of getLiveStates -----

  /** Everything found is live, and what leads to a found state that has been looked at is found. */
  ghost predicate GoingBack(g: Graph, states: set<State>, live: set<State>, todo: set<State>) {
    && live <= states <= g.trans.Keys && states * g.accept <= live
    && (forall q {:trigger q in live} :: q in live ==> g.Live(q))
    && (forall q, t {:trigger t in g.trans[q]} :: q in states && t in g.trans[q] && t.to in live - todo ==> q in live)
  }

  lemma PredecessorIsLive(g: Graph, p: State, t: Transition)
    requires p in g.trans && t in g.trans[p] && t.min <= t.max && g.Live(t.to)
    ensures g.Live(p)
  {
    var w :| g.Accepts(t.to, w);
    assert t.Covers(t.min) && ([t.min] + w)[1..] == w;
    assert g.Accepts(p, [t.min] + w);
  }

  lemma GoingBackStep(g: Graph, states: set<State>, live: set<State>, todo: set<State>, s: State, preds: set<State>)
    requires g.Valid() && GoingBack(g, states, live, todo) && s in todo && todo <= live
    requires preds == set p, t | p in states && t in g.trans[p] && t.to == s :: p
    ensures GoingBack(g, states, live + preds, (todo - {s}) + (preds - live))
  {
    forall p | p in preds ensures g.Live(p) {
      var t :| t in g.trans[p] && t.to == s;
      PredecessorIsLive(g, p, t);
    }
  }

  lemma NothingLeftBehind(g: Graph, states: set<State>, live: set<State>)
    requires g.Valid() && GoingBack(g, states, live, {})
    requires forall q, t {:trigger t in g.trans[q]} :: q in states && t in g.trans[q] ==> t.to in states
    ensures forall q :: q in live <==> q in states && g.Live(q)
  {
    forall q | q in states && g.Live(q) ensures q in live {
      var w :| g.Accepts(q, w);
      BackwardClosed(g, states, live, q, w);
    }
  }

  // ----- the Automaton object -----

  class Automaton {
    var initial: State
    var accept: set<State>
    var trans: map<State, set<Transition>>
    var deterministic: bool  // if true, definitely deterministic
    var nextId: nat          // the next State identity

    function Snapshot(): Graph
      reads this
    {
      Graph(initial, accept, trans)
    }

    ghost predicate Valid()
      reads this
    {
      && Snapshot().Valid()
      && (forall q :: q in trans ==> q < nextId)
      && (deterministic ==> Snapshot().Deterministic())
    }

    /** The representation invariant that every operation of the library hands back. */
    ghost predicate Clean()
      reads this
    {
      Valid() && Snapshot().NoDeadTransitions() && Snapshot().Reduced()
    }

    /** An automaton with the empty language. */
    constructor ()
      ensures Clean() && deterministic && initial == 0 && accept == {} && trans == map[0 := {}] && nextId == 1
    {
      initial, accept, trans, deterministic, nextId := 0, {}, map[0 := {}], true, 1;
    }

    constructor FromGraph(g: Graph, nextId: nat, deterministic: bool)
      requires g.Valid() && (forall q :: q in g.trans ==> q < nextId) && (deterministic ==> g.Deterministic())
      ensures Valid() && Snapshot() == g && this.nextId == nextId && this.deterministic == deterministic
    {
      initial, accept, trans := g.initial, g.accept, g.trans;
      this.nextId, this.deterministic := nextId, deterministic;
    }

    /** The set of states reachable from the initial state. */
    method GetStates() returns (visited: set<State>)
      requires Valid()
      ensures visited == Snapshot().ReachableStates() && initial in visited
      ensures forall q :: q in visited <==> Snapshot().Reachable(q)
      ensures forall q, t {:trigger t in trans[q]} :: q in visited && t in trans[q] ==> t.to in visited
    {
      visited := FindStates(Snapshot());
    }

    method GetAcceptStates() returns (accepts: set<State>)
      requires Valid()
      ensures forall q :: q in accepts <==> q in accept && Snapshot().Reachable(q)
    {
      var states := GetStates();
      accepts := states * accept;
    }

    /** The live ones among the reachable states: backward search from the accepting ones. */
    method GetLiveStates(states: set<State>) returns (live: set<State>)
      requires Valid() && states <= trans.Keys
      requires forall q, t {:trigger t in trans[q]} :: q in states && t in trans[q] ==> t.to in states
      ensures forall q :: q in live <==> q in states && Snapshot().Live(q)
    {
      ghost var g := Snapshot();
      live := states * accept;
      var todo := live;
      assert forall q :: q in live ==> g.Accepts(q, []);
      while todo != {}
        invariant todo <= live && GoingBack(g, states, live, todo)
        decreases states - live, todo
      {
        var s :| s in todo;
        var preds := set p, t | p in states && t in trans[p] && t.to == s :: p;
        GoingBackStep(g, states, live, todo, s, preds);
        todo := (todo - {s}) + (preds - live);
        live := live + preds;
      }
      NothingLeftBehind(g, states, live);
    }
  
    /** Forgets the states that cannot be reached. */
    method KeepReachable() returns (states: set<State>)
      requires Valid()
      modifies this
      ensures Valid() && deterministic == old(deterministic) && nextId == old(nextId)
      ensures states == trans.Keys && Closed(old(Snapshot()), states)
      ensures forall q :: q in states <==> old(Snapshot()).Reachable(q)
      ensures Snapshot() == old(Snapshot()).Restrict(states)
    {
      ghost var g := Snapshot();
      states := GetStates();
      accept := accept * states;
      trans := map q | q in states :: trans[q];
      assert Snapshot() == g.Restrict(states);
      RestrictIsValid(g, states);
    }

    /** Combines overlapping and adjacent intervals with the same destination. Unreachable states are gone afterwards.
        */
    method Reduce()
      requires Valid()
      modifies this
      ensures Valid() && initial == old(initial) && deterministic == old(deterministic) && nextId == old(nextId)
      ensures forall q :: q in trans <==> old(Snapshot()).Reachable(q)
      ensures IsReduction(old(Snapshot()).Restrict(trans.Keys), Snapshot())
    {
      var states := KeepReachable();
      ghost var r := Snapshot();
      var todo := states;
      while todo != {}
        invariant todo <= states && trans.Keys == states
        invariant initial == r.initial && accept == r.accept && deterministic == old(deterministic)
            && nextId == old(nextId)
        invariant forall q :: q in todo ==> trans[q] == r.trans[q]
        invariant forall q :: q in states - todo ==> Combined(r.trans[q], trans[q])
      {
        var q :| q in todo;
        todo := todo - {q};
        var combined := CombineIntervals(trans[q]);
        trans := trans[q := combined];
      }
      ReductionIsValid(r, Snapshot());
    }

    /** Removes the transitions to dead states, and only those, then reduces. */
    method RemoveDeadTransitions()
      requires Valid()
      modifies this
      ensures Clean() && initial == old(initial) && deterministic == old(deterministic) && nextId == old(nextId)
      ensures forall q :: q in trans ==> old(Snapshot()).Reachable(q) && Snapshot().Reachable(q)
      ensures SameRightOn(old(Snapshot()), Snapshot())
      ensures KeepsLive(old(Snapshot()), Snapshot())
    {
      ghost var g := Snapshot();
      var states := GetStates();
      var live := GetLiveStates(states);
      accept := accept * states;
      trans := map q | q in states :: set t | t in trans[q] && t.to in live;
      ghost var h := Snapshot();
      assert IsTrimmed(g, h) by {
        assert trans.Keys == states;
      }
      TrimmedIsValid(g, h);
      Reduce();
      ghost var k := Snapshot();
      TrimmedKeepsLanguages(g, h, k);
      TrimmedHasNoDeadTransitions(g, h, k);
      TrimmedKeepsLive(g, h, k);
      ReductionKeepsLanguages(h.Restrict(k.trans.Keys), k);
      forall q | q in trans ensures k.Reachable(q) {
        ReductionIsReachable(h, k, q);
      }
    }
  
    /** Adds transitions to an explicit crash state so that the transition function is total. */
    method Totalize()
      requires Valid()
      modifies this
      ensures Valid() && Snapshot().Total()
      ensures initial == old(initial) && deterministic == old(deterministic) && nextId == old(nextId) + 1
      ensures forall q :: q in trans <==> q == old(nextId) || old(Snapshot()).Reachable(q)
      ensures IsTotalized(old(Snapshot()).Restrict(trans.Keys - {old(nextId)}), Snapshot(), old(nextId))
      ensures forall q, w :: q in trans && q != old(nextId) ==>
          (Snapshot().Accepts(q, w) <==> old(Snapshot()).Accepts(q, w))
    {
      ghost var g := Snapshot();
      var sink := nextId;
      nextId := nextId + 1;
      var states := KeepReachable();
      ghost var r := Snapshot();
      var filled := FillStates(trans, sink);
      trans := filled;
      assert forall q :: q in trans ==> q < nextId;
      ghost var h := Snapshot();
      assert IsTotalized(r, h, sink);
      TotalizedIsTotal(r, h, sink);
      TotalizedKeepsLanguages(g, states, h, sink);
      assert states == trans.Keys - {sink};
    }

    /** The sorted start points of the intervals of the reachable states. */
    method GetStartPoints() returns (points: seq<Char>)
      requires Valid()
      ensures IsPoints(points)
      ensures PointsFit(Snapshot(), Snapshot().ReachableStates(), points)
      ensures forall c :: c in points <==> IsStartPoint(Snapshot(), c)
    {
      ghost var g := Snapshot();
      var states := GetStates();
      var pointset: set<Char> := {MIN_CHAR};
      pointset := pointset + set q, t | q in states && t in trans[q] :: t.min;
      pointset := pointset + set q, t | q in states && t in trans[q] && t.max < MAX_CHAR :: Following(t.max);
      assert forall c :: c in pointset <==> IsStartPoint(g, c) by {
        StartPointsOf(g, states, pointset);
      }
      points := SortPoints(pointset);
      forall q, t, i: nat, c | q in g.ReachableStates() && t in g.Out(q) && InClass(points, i, c)
        ensures t.Covers(c) <==> t.Covers(points[i])
      {
        assert t.min in pointset;
        assert t.max < MAX_CHAR ==> Following(t.max) in pointset;
        NoPointInside(points, i, c, t.min);
        if t.max < MAX_CHAR {
          NoPointInside(points, i, c, Following(t.max));
        }
      }
    }
  }

  /** The least character, the first one of a transition of a reachable state, or the one that follows its last. */
  ghost predicate IsStartPoint(g: Graph, c: Char) {
    c == 0 || exists q, t {:trigger t in g.Out(q)} :: g.Reachable(q) && t in g.Out(q) && (c == t.min || c == t.max + 1)
  }

  lemma StartPointsOf(g: Graph, states: set<State>, pointset: set<Char>)
    requires g.Valid() && states <= g.trans.Keys && forall q :: q in states <==> g.Reachable(q)
    requires pointset == {MIN_CHAR} + (set q, t | q in states && t in g.trans[q] :: t.min)
        + set q, t | q in states && t in g.trans[q] && t.max < MAX_CHAR :: Following(t.max)
    ensures forall c :: c in pointset <==> IsStartPoint(g, c)
  {
    forall c ensures c in pointset <==> IsStartPoint(g, c) {
      if q, t :| g.Reachable(q) && t in g.Out(q) && (c == t.min || c == t.max + 1) {
        assert q in states && t in g.trans[q];
        if c == t.max + 1 {
          assert Following(t.max) in pointset;
        }
      }
    }
  }

  /** The states of h have there exactly the live successors that they have in g. */
  ghost predicate KeepsLive(g: Graph, h: Graph) {
    forall q, c: Char {:trigger h.Succ(q, c)} :: q in h.trans ==>
      forall p :: p in h.Succ(q, c) <==> p in g.Succ(q, c) && g.Live(p)
  }

  lemma TrimmedKeepsLive(g: Graph, h: Graph, k: Graph)
    requires IsTrimmed(g, h) && k.trans.Keys <= h.trans.Keys && IsReduction(h.Restrict(k.trans.Keys), k)
    ensures KeepsLive(g, k)
  {
    forall q, c: Char | q in k.trans ensures forall p :: p in k.Succ(q, c) <==> p in g.Succ(q, c) && g.Live(p) {
      ReductionSucc(h.Restrict(k.trans.Keys), k, q, c);
      assert h.Restrict(k.trans.Keys).Succ(q, c) == h.Succ(q, c);
      assert forall t :: t in h.trans[q] <==> t in g.trans[q] && g.Live(t.to);
    }
  }

  function Following(c: Char): Char
    requires c < MAX_CHAR
  {
    c + 1
  }

  lemma NoPointInside(points: seq<Char>, i: nat, c: Char, p: Char)
    requires InClass(points, i, c) && p in points
    ensures p <= points[i] || c < p
  {
    var j :| 0 <= j < |points| && points[j] == p;
    if j > i {
      assert points[i + 1] <= points[j];
    }
  }

  /** A set of characters in ascending order. */
  method Ascending(ps: set<Char>) returns (points: seq<Char>)
    ensures forall i, j :: 0 <= i < j < |points| ==> points[i] < points[j]
    ensures forall c :: c in points <==> c in ps
  {
    points := [];
    var todo := ps;
    while todo != {}
      invariant todo <= ps
      invariant forall c :: c in points <==> c in ps - todo
      invariant forall i, j :: 0 <= i < j < |points| ==> points[i] < points[j]
      invariant forall i, c :: 0 <= i < |points| && c in todo ==> points[i] < c
    {
      var least :| least in todo;
      var rest := todo - {least};
      while rest != {}
        invariant least in todo && rest <= todo
        invariant forall d :: d in todo && d !in rest ==> least <= d
      {
        var c :| c in rest;
        rest := rest - {c};
        if c < least {
          least := c;
        }
      }
      points := points + [least];
      todo := todo - {least};
    }
  }

  method SortPoints(ps: set<Char>) returns (points: seq<Char>)
    requires MIN_CHAR in ps
    ensures IsPoints(points)
    ensures forall c :: c in points <==> c in ps
  {
    points := Ascending(ps);
    assert MIN_CHAR in points;
  }

  lemma ReductionIsValid(g: Graph, h: Graph)
    requires IsReduction(g, h) && g.Valid()
    ensures h.Valid()
    ensures g.Deterministic() ==> h.Deterministic()
  {
    forall q, t | q in h.trans && t in h.trans[q] ensures t.min <= t.max && t.to in h.trans {
      assert t.Covers(t.min);
      assert Hits(g.trans[q], t.to, t.min);
    }
    if g.Deterministic() {
      ReductionStaysDeterministic(g, h);
    }
  }

  /** h is g without its unreachable states and without its transitions to dead states. */
  ghost predicate IsTrimmed(g: Graph, h: Graph) {
    && Closed(g, h.trans.Keys) && (forall q :: q in h.trans <==> g.Reachable(q))
    && h.initial == g.initial && h.accept == g.accept * h.trans.Keys
    && forall q :: q in h.trans ==> h.trans[q] == set t | t in g.trans[q] && g.Live(t.to)
  }

  lemma TrimmedIsValid(g: Graph, h: Graph)
    requires g.Valid() && IsTrimmed(g, h)
    ensures h.Valid()
    ensures g.Deterministic() ==> h.Deterministic()
  {
    forall q, t | q in h.trans && t in h.trans[q] ensures t.min <= t.max && t.to in h.trans {
      assert t in g.trans[q];
    }
  }

  /** What reduction leaves of a trimmed graph: the states still reachable, with the right languages they had. */
  ghost predicate SameRightOn(g: Graph, k: Graph) {
    forall q, w :: q in k.trans ==> (k.Accepts(q, w) <==> g.Accepts(q, w))
  }

  lemma TrimmedKeepsLanguages(g: Graph, h: Graph, k: Graph)
    requires g.Valid() && IsTrimmed(g, h) && h.Valid()
    requires (forall q :: q in k.trans <==> h.Reachable(q)) && IsReduction(h.Restrict(k.trans.Keys), k)
    ensures k.trans.Keys <= h.trans.Keys && Closed(h, k.trans.Keys)
    ensures SameRightOn(g, k)
  {
    assert Closed(h, h.trans.Keys);
    ReductionKeepsLanguages(h.Restrict(k.trans.Keys), k);
    forall q, w | q in k.trans ensures k.Accepts(q, w) <==> g.Accepts(q, w) {
      RestrictKeepsLanguages(h, k.trans.Keys, q, w);
      DeadRemovalKeepsLanguages(g, h, q, w);
    }
  }

  lemma TrimmedHasNoDeadTransitions(g: Graph, h: Graph, k: Graph)
    requires g.Valid() && IsTrimmed(g, h) && h.Valid() && k.Valid()
    requires k.trans.Keys <= h.trans.Keys && IsReduction(h.Restrict(k.trans.Keys), k) && SameRightOn(g, k)
    ensures k.NoDeadTransitions()
  {
    var r := h.Restrict(k.trans.Keys);
    forall q, t | q in k.trans && t in k.trans[q] ensures k.Live(t.to) {
      assert t.Covers(t.min);
      assert Hits(r.trans[q], t.to, t.min);
      assert g.Live(t.to);
      var w :| g.Accepts(t.to, w);
      assert k.Accepts(t.to, w);
    }
  }

  /** Reduction keeps every state reachable. */
  lemma ReductionIsReachable(h: Graph, k: Graph, q: State)
    requires h.Valid() && IsReduction(h.Restrict(k.trans.Keys), k) && Closed(h, k.trans.Keys)
    requires h.Reachable(q)
    ensures k.Reachable(q)
  {
    forall s | k.initial in s && Closed(k, s) ensures q in s {
      forall p, t | p in s && t in h.trans[p] ensures t.to in s {
        assert t.Covers(t.min);
        assert Hits(h.Restrict(k.trans.Keys).trans[p], t.to, t.min);
        assert Hits(k.trans[p], t.to, t.min);
      }
      assert Closed(h, s);
    }
  }

  lemma {:induction false} BackwardClosed(g: Graph, states: set<State>, live: set<State>, q: State, w: Word)
    requires states <= g.trans.Keys && q in states && g.Accepts(q, w) && states * g.accept <= live
    requires forall p, t {:trigger t in g.trans[p]} :: p in states && t in g.trans[p] ==>
        t.to in states && (t.to in live ==> p in live)
    ensures q in live
    decreases |w|
  {
    if w != [] {
      var p :| p in g.Succ(q, w[0]) && g.Accepts(p, w[1..]);
      BackwardClosed(g, states, live, p, w[1..]);
    }
  }
}
