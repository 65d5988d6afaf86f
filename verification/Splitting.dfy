/** Splitting transitions so that two intervals are the same or disjoint, and the adjacency lists of the transitions. */
module Splitting {
  import opened Languages
  import opened Automata

  ghost predicate IsAscending(points: seq<Char>) {
    forall i, j :: 0 <= i < j < |points| ==> points[i] < points[j]
  }

  /** A single point, or the gap between two points that follow one another. */
  ghost predicate Atom(points: seq<Char>, min: Char, max: Char) {
    || (min == max && min in points)
    || (min <= max && (forall p {:trigger p in points} :: p in points ==> p < min || max < p)
        && (exists p :: p in points && p + 1 == min) && exists p :: p in points && max + 1 == p)
  }

  lemma AtomsOverlap(points: seq<Char>, min: Char, max: Char, min': Char, max': Char)
    requires Atom(points, min, max) && Atom(points, min', max') && min <= max' && min' <= max
    ensures min == min' && max == max'
  {
  }

  /** The parts of t: atoms inside it, covering all of it. */
  ghost predicate Parts(points: seq<Char>, t: Transition, parts: set<Transition>) {
    && (forall e {:trigger e in parts} :: e in parts ==>
         e.to == t.to && t.min <= e.min <= e.max <= t.max && Atom(points, e.min, e.max))
    && forall c: Char {:trigger Covered(parts, c)} :: t.Covers(c) ==> Covered(parts, c)
  }

  /** The loop over the points inside t, up to start. */
  ghost predicate PartsUpTo(points: seq<Char>, t: Transition, parts: set<Transition>, start: Char) {
    && start in points && t.min <= start <= t.max
    && (forall e {:trigger e in parts} :: e in parts ==>
         e.to == t.to && t.min <= e.min <= e.max <= start && Atom(points, e.min, e.max))
    && (forall c: Char {:trigger Covered(parts, c)} :: t.min <= c <= start && start != t.min ==> Covered(parts, c))
  }

  lemma NextPart(points: seq<Char>, t: Transition, parts: set<Transition>, start: Char, c: Char,
      parts': set<Transition>)
    requires PartsUpTo(points, t, parts, start) && start < c <= t.max && c in points && forall p :: p in points ==>
        p <= start || c <= p
    requires parts' == parts + {Transition(start, start, t.to), Transition(c, c, t.to)} + if c - start > 1
        then {Transition(start + 1, c - 1, t.to)} else {}
    ensures PartsUpTo(points, t, parts', c)
  {
    forall d: Char | t.min <= d <= c ensures Covered(parts', d) {
      if d == start {
        assert Transition(start, start, t.to) in parts' && Transition(start, start, t.to).Covers(d);
      } else if d == c {
        assert Transition(c, c, t.to) in parts' && Transition(c, c, t.to).Covers(d);
      } else if d < start {
        assert Covered(parts, d);
      } else {
        assert Transition(start + 1, c - 1, t.to) in parts' && Transition(start + 1, c - 1, t.to).Covers(d);
      }
    }
  }

  method SplitOne(t: Transition, points: seq<Char>) returns (parts: set<Transition>)
    requires t.min <= t.max && IsAscending(points) && t.min in points && t.max in points
    ensures Parts(points, t, parts)
  {
    if t.min == t.max {
      parts := {t};
      forall c: Char | t.Covers(c) ensures Covered(parts, c) {
        assert t in parts;
      }
      return;
    }
    parts := {};
    var start: Char := t.min;
    for i := 0 to |points|
      invariant PartsUpTo(points, t, parts, start)
      invariant forall j {:trigger points[j]} :: 0 <= j < i && points[j] <= t.max ==> points[j] <= start
      invariant forall j {:trigger points[j]} :: i <= j < |points| ==> points[j] <= t.min || start < points[j]
    {
      var c := points[i];
      if t.min < c <= t.max {
        ghost var parts0 := parts;
        parts := parts + {Transition(start, start, t.to), Transition(c, c, t.to)};
        if c - start > 1 {
          parts := parts + {Transition(start + 1, c - 1, t.to)};
        }
        NextPart(points, t, parts0, start, c, parts);
        start := c;
      }
    }
    assert start == t.max by {
      var j :| 0 <= j < |points| && points[j] == t.max;
    }
  }

  /** The parts of a whole row. */
  ghost predicate SplitsRow(points: seq<Char>, ts: set<Transition>, row: set<Transition>) {
    && (forall e {:trigger e in row} :: e in row ==> Atom(points, e.min, e.max) && e.min <= e.max && FromOne(ts, e))
    && (forall t, c: Char {:trigger t in ts, Hits(row, t.to, c)} :: t in ts && t.Covers(c) ==> Hits(row, t.to, c))
  }

  /** e is a part of one of the transitions. */
  ghost predicate FromOne(ts: set<Transition>, e: Transition) {
    exists t :: t in ts && e.to == t.to && t.min <= e.min && e.max <= t.max
  }

  method SplitRow(ts: set<Transition>, points: seq<Char>) returns (row: set<Transition>)
    requires IsAscending(points) && forall t {:trigger t in ts} :: t in ts ==>
        t.min <= t.max && t.min in points && t.max in points
    ensures SplitsRow(points, ts, row)
  {
    row := {};
    var todo := ts;
    while todo != {}
      invariant todo <= ts && SplitsRow(points, ts - todo, row)
    {
      var t :| t in todo;
      ghost var done, row0 := ts - todo, row;
      todo := todo - {t};
      var parts := SplitOne(t, points);
      row := row + parts;
      MoreParts(points, done, row0, t, parts);
      assert ts - todo == done + {t};
    }
    assert ts - todo == ts;
  }

  lemma MoreParts(points: seq<Char>, ts: set<Transition>, row: set<Transition>, t: Transition, parts: set<Transition>)
    requires SplitsRow(points, ts, row) && Parts(points, t, parts)
    ensures SplitsRow(points, ts + {t}, row + parts)
  {
    forall e | e in row + parts ensures Atom(points, e.min, e.max) && e.min <= e.max && FromOne(ts + {t}, e) {
      if e in row {
        var u :| u in ts && e.to == u.to && u.min <= e.min && e.max <= u.max;
        assert u in ts + {t};
      } else {
        assert t in ts + {t};
      }
    }
    forall u, c: Char | u in ts + {t} && u.Covers(c) ensures Hits(row + parts, u.to, c) {
      if u in ts {
        assert Hits(row, u.to, c);
        var e :| e in row && e.to == u.to && e.Covers(c);
        assert e in row + parts;
      } else {
        assert Covered(parts, c);
        var e :| e in parts && e.Covers(c);
        assert e in row + parts;
      }
    }
  }

  /** h has the states of g given, their transitions split at the points. */
  ghost predicate IsSplit(g: Graph, states: set<State>, points: seq<Char>, h: Graph) {
    && Closed(g, states) && h.initial == g.initial && h.accept == g.accept * states && h.trans.Keys == states
    && forall q {:trigger h.trans[q]} :: q in states ==> SplitsRow(points, g.trans[q], h.trans[q])
  }

  lemma SplitSucc(g: Graph, states: set<State>, points: seq<Char>, h: Graph, q: State, c: Char)
    requires IsSplit(g, states, points, h) && q in states
    ensures h.Succ(q, c) == g.Succ(q, c)
  {
    assert SplitsRow(points, g.trans[q], h.trans[q]);
    forall p | p in h.Succ(q, c) ensures p in g.Succ(q, c) {
      var e :| e in h.trans[q] && e.Covers(c) && e.to == p;
      assert FromOne(g.trans[q], e);
      var t :| t in g.trans[q] && e.to == t.to && t.min <= e.min && e.max <= t.max;
      assert t.Covers(c);
    }
    forall p | p in g.Succ(q, c) ensures p in h.Succ(q, c) {
      var t :| t in g.trans[q] && t.Covers(c) && t.to == p;
      assert Hits(h.trans[q], t.to, c);
    }
  }

  lemma SplitIsValid(g: Graph, states: set<State>, points: seq<Char>, h: Graph)
    requires IsSplit(g, states, points, h) && g.Valid() && g.Deterministic() && g.initial in states
    ensures h.Valid() && h.Deterministic()
  {
    forall q, e | q in h.trans && e in h.trans[q] ensures e.min <= e.max && e.to in h.trans {
      assert FromOne(g.trans[q], e);
    }
    forall q, e, f | q in h.trans && e in h.trans[q] && f in h.trans[q] && e != f
        ensures e.max < f.min || f.max < e.min
    {
      if e.min <= f.max && f.min <= e.max {
        assert SplitsRow(points, g.trans[q], h.trans[q]);
        AtomsOverlap(points, e.min, e.max, f.min, f.max);
        assert e.Covers(e.min) && f.Covers(e.min) && e.to in h.Succ(q, e.min) && f.to in h.Succ(q, e.min);
        SplitSucc(g, states, points, h, q, e.min);
        DeterministicStep(g, q, e.min, e.to, f.to);
      }
    }
  }

  lemma {:induction false} SplitAccepts(g: Graph, states: set<State>, points: seq<Char>, h: Graph, q: State, w: Word)
    requires IsSplit(g, states, points, h) && q in states
    ensures h.Accepts(q, w) <==> g.Accepts(q, w)
    decreases |w|
  {
    if w != [] {
      SplitSucc(g, states, points, h, q, w[0]);
      forall p | p in g.Succ(q, w[0]) ensures h.Accepts(p, w[1..]) <==> g.Accepts(p, w[1..]) {
        SplitAccepts(g, states, points, h, p, w[1..]);
      }
    }
  }

  /** An end of a transition of one of the states. */
  ghost predicate IsEndPoint(g: Graph, states: set<State>, c: Char) {
    exists q, t {:trigger t in g.Out(q)} :: q in states && t in g.Out(q) && (c == t.min || c == t.max)
  }

  lemma EndPointsOf(g: Graph, states: set<State>, pointSet: set<Char>)
    requires states <= g.trans.Keys
    requires pointSet == (set q, t | q in states && t in g.trans[q] :: t.min)
        + set q, t | q in states && t in g.trans[q] :: t.max
    ensures forall c :: c in pointSet <==> IsEndPoint(g, states, c)
  {
    forall c ensures c in pointSet <==> IsEndPoint(g, states, c) {
      if q, t :| q in states && t in g.Out(q) && (c == t.min || c == t.max) {
        assert t in g.trans[q];
      }
    }
  }

  /** All ends of transitions, in ascending order. */
  ghost predicate AreEndPoints(g: Graph, states: set<State>, points: seq<Char>) {
    IsAscending(points) && forall c {:trigger c in points} :: c in points <==> IsEndPoint(g, states, c)
  }

  method EndPoints(g: Graph, states: set<State>) returns (points: seq<Char>)
    requires states <= g.trans.Keys
    ensures AreEndPoints(g, states, points)
  {
    var pointSet: set<Char> := (set q, t | q in states && t in g.trans[q] :: t.min) + (set q, t | q in states
      && t in g.trans[q] :: t.max);
    EndPointsOf(g, states, pointSet);
    points := Ascending(pointSet);
  }

  lemma EndsArePoints(g: Graph, states: set<State>, points: seq<Char>)
    requires states <= g.trans.Keys && AreEndPoints(g, states, points)
    ensures forall q, t {:trigger t in g.trans[q]} :: q in states && t in g.trans[q] ==>
        t.min in points && t.max in points
  {
    forall q, t | q in states && t in g.trans[q] ensures t.min in points && t.max in points {
      assert t in g.Out(q);
    }
  }

  /** splitTransitions: at the end points of the transitions, and only there. */
  method SplitTransitions(g: Graph, states: set<State>) returns (h: Graph, points: seq<Char>)
    requires g.Valid() && Closed(g, states) && g.initial in states
    ensures IsSplit(g, states, points, h) && AreEndPoints(g, states, points)
  {
    points := EndPoints(g, states);
    EndsArePoints(g, states, points);
    var trans: map<State, set<Transition>>, todo := map[], states;
    while todo != {}
      invariant todo <= states && trans.Keys == states - todo
      invariant forall q {:trigger trans[q]} :: q in states && q !in todo ==> SplitsRow(points, g.trans[q], trans[q])
    {
      var q :| q in todo;
      todo := todo - {q};
      var row := SplitRow(g.trans[q], points);
      trans := trans[q := row];
    }
    h := Graph(g.initial, g.accept * states, trans);
  }

  // ----- adjacency lists -----

  /** How many of the first m entries are q. */
  ghost function Count(k: seq<nat>, q: nat, m: nat): nat
    requires m <= |k|
  {
    if m == 0 then 0 else Count(k, q, m - 1) + if k[m - 1] == q then 1 else 0
  }

  /** How many entries are below q. */
  ghost function Start(k: seq<nat>, q: nat): nat {
    if q == 0 then 0 else Start(k, q - 1) + Count(k, q - 1, |k|)
  }

  /** Where makeAdjacent puts entry t. */
  ghost function Place(k: seq<nat>, t: nat): nat
    requires t < |k|
  {
    Start(k, k[t]) + Count(k, k[t], t)
  }

  lemma {:induction false} CountGrows(k: seq<nat>, q: nat, m: nat, n: nat)
    requires m <= n <= |k|
    ensures Count(k, q, m) <= Count(k, q, n)
    ensures m < n && k[m] == q ==> Count(k, q, m) < Count(k, q, n)
    decreases n
  {
    if m < n {
      CountGrows(k, q, m, n - 1);
    }
  }

  lemma {:induction false} StartGrows(k: seq<nat>, p: nat, q: nat)
    requires p <= q
    ensures Start(k, p) <= Start(k, q)
    ensures p < q ==> Start(k, p) + Count(k, p, |k|) <= Start(k, q)
    decreases q
  {
    if p < q {
      StartGrows(k, p, q - 1);
    }
  }

  lemma PlacesDiffer(k: seq<nat>, t: nat, u: nat)
    requires t < u < |k|
    ensures Place(k, t) != Place(k, u)
  {
    CountGrows(k, k[t], t, u);
    CountGrows(k, k[t], t, |k|);
    CountGrows(k, k[u], u, |k|);
    if k[t] < k[u] {
      StartGrows(k, k[t], k[u]);
    } else if k[u] < k[t] {
      StartGrows(k, k[u], k[t]);
    }
  }

  lemma {:induction false} NthEntry(k: seq<nat>, q: nat, m: nat, r: nat) returns (t: nat)
    requires m <= |k| && r < Count(k, q, m)
    ensures t < m && k[t] == q && Count(k, q, t) == r
    decreases m
  {
    if k[m - 1] == q && Count(k, q, m - 1) == r {
      t := m - 1;
    } else {
      t := NthEntry(k, q, m - 1, r);
    }
  }

  lemma {:induction false} AllBelow(k: seq<nat>, n: nat, m: nat)
    requires m <= |k| && forall t {:trigger k[t]} :: 0 <= t < |k| ==> k[t] < n
    ensures Total(k, n, m) == m
    decreases m
  {
    if m == 0 {
      NoneAtAll(k, n);
    } else {
      AllBelow(k, n, m - 1);
      OneMoreEntry(k, n, m);
    }
  }

  ghost function Total(k: seq<nat>, n: nat, m: nat): nat
    requires m <= |k|
  {
    if n == 0 then 0 else Total(k, n - 1, m) + Count(k, n - 1, m)
  }

  lemma {:induction false} NoneAtAll(k: seq<nat>, n: nat)
    ensures Total(k, n, 0) == 0
  {
    if n > 0 {
      NoneAtAll(k, n - 1);
    }
  }

  lemma {:induction false} OneMoreEntry(k: seq<nat>, n: nat, m: nat)
    requires 0 < m <= |k|
    ensures Total(k, n, m) == Total(k, n, m - 1) + if k[m - 1] < n then 1 else 0
  {
    if n > 0 {
      OneMoreEntry(k, n - 1, m);
    }
  }

  lemma {:induction false} TotalIsStart(k: seq<nat>, n: nat)
    ensures Total(k, n, |k|) == Start(k, n)
  {
    if n > 0 {
      TotalIsStart(k, n - 1);
    }
  }

  lemma PlaceIsInside(k: seq<nat>, n: nat, t: nat)
    requires t < |k| && forall u {:trigger k[u]} :: 0 <= u < |k| ==> k[u] < n
    ensures Start(k, k[t]) <= Place(k, t) < Start(k, k[t] + 1) <= Start(k, n) == |k|
  {
    CountGrows(k, k[t], t, |k|);
    StartGrows(k, k[t] + 1, n);
    AllBelow(k, n, |k|);
    TotalIsStart(k, n);
  }

  /** A[F[q]..F[q+1]] lists the entries equal to q. */
  ghost predicate IsAdjacent(a: seq<nat>, f: seq<nat>, k: seq<nat>, n: nat) {
    && |a| == |k| && |f| == n + 1
    && (forall q {:trigger f[q]} :: 0 <= q <= n ==> f[q] == Start(k, q) && f[q] <= |k|)
    && (forall t {:trigger k[t]} :: 0 <= t < |k| ==> k[t] < n && Place(k, t) < |a| && a[Place(k, t)] == t)
  }

  /** Entry t stands at its place among the entries equal to it, and nothing else stands there. */
  lemma AdjacentEntry(a: seq<nat>, f: seq<nat>, k: seq<nat>, n: nat, q: nat, j: nat)
    requires IsAdjacent(a, f, k, n) && q < n && f[q] <= j < f[q + 1]
    ensures j < |a| && a[j] < |k| && k[a[j]] == q && Place(k, a[j]) == j
  {
    var t := NthEntry(k, q, |k|, j - f[q]);
    assert Place(k, t) == j;
  }

  /** How often each key occurs. */
  method CountKeys(f: array<nat>, k: seq<nat>, nn: nat, mm: nat)
    requires mm == |k| && f.Length == nn + 1 && forall t {:trigger k[t]} :: 0 <= t < |k| ==> k[t] < nn
    modifies f
    ensures forall p {:trigger f[p]} :: 0 <= p <= nn ==> f[p] == Count(k, p, mm)
  {
    for q := 0 to nn + 1
      invariant forall p {:trigger f[p]} :: 0 <= p < q ==> f[p] == 0
    {
      f[q] := 0;
    }
    for t := 0 to mm
      invariant forall p {:trigger f[p]} :: 0 <= p <= nn ==> f[p] == Count(k, p, t)
    {
      f[k[t]] := f[k[t]] + 1;
    }
  }

  /** Where the stretch of each key ends. */
  method SumKeys(f: array<nat>, k: seq<nat>, nn: nat, mm: nat)
    requires mm == |k| && f.Length == nn + 1 && forall t {:trigger k[t]} :: 0 <= t < |k| ==> k[t] < nn
    requires forall p {:trigger f[p]} :: 0 <= p <= nn ==> f[p] == Count(k, p, mm)
    modifies f
    ensures forall p {:trigger f[p]} :: 0 <= p < nn ==> f[p] == Start(k, p) + Count(k, p, mm)
    ensures f[nn] == Start(k, nn)
  {
    NoneAbove(k, nn, mm);
    for q := 0 to nn
      invariant forall p {:trigger f[p]} :: 0 <= p < q ==> f[p] == Start(k, p + 1)
      invariant f[q] == if q < nn then Start(k, q) + Count(k, q, mm) else Start(k, q)
      invariant forall p {:trigger f[p]} :: q < p <= nn ==> f[p] == Count(k, p, mm)
    {
      f[q + 1] := f[q + 1] + f[q];
    }
  }

  /** Counting sort of the numbers 0..mm by their key. */
  method MakeAdjacent(a: array<nat>, f: array<nat>, k: seq<nat>, nn: nat, mm: nat)
    requires a != f && a.Length == mm == |k| && f.Length == nn + 1 && forall t {:trigger k[t]} :: 0 <= t < |k| ==>
        k[t] < nn
    modifies a, f
    ensures IsAdjacent(a[..], f[..], k, nn)
  {
    CountKeys(f, k, nn, mm);
    SumKeys(f, k, nn, mm);
    var t: nat := mm;
    while t > 0
      invariant t <= mm
      invariant forall p {:trigger f[p]} :: 0 <= p < nn ==> f[p] == Start(k, p) + Count(k, p, t)
      invariant f[nn] == Start(k, nn)
      invariant forall u {:trigger Place(k, u)} :: t <= u < mm ==> Place(k, u) < mm && a[Place(k, u)] == u
    {
      t := t - 1;
      PlaceIsInside(k, nn, t);
      f[k[t]] := f[k[t]] - 1;
      a[f[k[t]]] := t;
      forall u | t < u < mm ensures Place(k, u) != Place(k, t) {
        PlacesDiffer(k, t, u);
      }
    }
    forall q | 0 <= q <= nn ensures f[q] == Start(k, q) && f[q] <= mm {
      StartGrows(k, q, nn);
      AllBelow(k, nn, mm);
      TotalIsStart(k, nn);
    }
  }

  lemma {:induction false} NoneAbove(k: seq<nat>, n: nat, m: nat)
    requires m <= |k| && forall t {:trigger k[t]} :: 0 <= t < |k| ==> k[t] < n
    ensures Count(k, n, m) == 0
  {
    if m > 0 {
      NoneAbove(k, n, m - 1);
    }
  }
}
