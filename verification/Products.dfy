/** Boolean operations on automata: complement, product, difference and union. */
module Products {
  import opened Languages
  import opened Automata
  import opened Numberings
  import opened Runs
  import BasicOperations

  // ----- clone -----

  method Clone(a: Automaton) returns (b: Automaton)
    requires a.Valid()
    ensures fresh(b) && b.Valid() && b.Snapshot() == a.Snapshot() && b.nextId == a.nextId
        && b.deterministic == a.deterministic
  {
    b := new Automaton.FromGraph(a.Snapshot(), a.nextId, a.deterministic);
  }

  method MakeEmpty() returns (b: Automaton)
    ensures fresh(b) && b.Clean() && b.deterministic && forall w :: !b.Snapshot().Language(w)
  {
    b := new Automaton();
    forall w ensures !b.Snapshot().Language(w) {
      NoTransitionsNoWords(b.Snapshot(), w);
    }
  }

  /** No run from the initial state reads more than the empty word. */
  ghost predicate ReadsNothing(g: Graph) {
    forall w {:trigger HasRun(g, g.initial, w)} :: HasRun(g, g.initial, w) ==> w == []
  }

  lemma ReadsNothingAtStart(g: Graph)
    requires g.Valid()
    ensures ReadsNothing(g) <==> g.trans[g.initial] == {}
  {
    if t :| t in g.trans[g.initial] {
      assert t.Covers(t.min) && t.to in g.Succ(g.initial, t.min) && [t.min][1..] == [];
      assert g.Reaches(t.to, [], t.to);
      assert g.Reaches(g.initial, [t.min], t.to);
      assert HasRun(g, g.initial, [t.min]);
    } else {
      forall w | w != [] ensures !HasRun(g, g.initial, w) {
        assert g.Succ(g.initial, w[0]) == {};
      }
    }
  }

  lemma NoTransitionsNoWords(g: Graph, w: Word)
    requires g.initial !in g.accept && g.Out(g.initial) == {}
    ensures !g.Language(w)
  {
  }

  /** Looks at the initial state only: nothing is accepted and nothing but the empty word is read. Right whenever no
      transition leads to a dead state. */
  method IsEmpty(a: Automaton) returns (r: bool)
    requires a.Valid()
    ensures r ==> forall w :: !a.Snapshot().Language(w)
    ensures a.Snapshot().NoDeadTransitions() && !r ==> exists w :: a.Snapshot().Language(w)
    ensures r <==> (forall w :: !a.Snapshot().Language(w)) && ReadsNothing(a.Snapshot())
  {
    ghost var g := a.Snapshot();
    ReadsNothingAtStart(g);
    r := a.initial !in a.accept && a.trans[a.initial] == {};
    if r {
      forall w ensures !g.Language(w) {
        NoTransitionsNoWords(g, w);
      }
    } else if a.initial in a.accept {
      assert g.Language([]);
    } else if g.NoDeadTransitions() {
      ghost var t :| t in g.trans[a.initial];
      assert g.Live(t.to);
      ghost var w :| g.Accepts(t.to, w);
      assert t.Covers(t.min) && ([t.min] + w)[1..] == w;
      assert g.Language([t.min] + w);
    }
  }

  // ----- complement -----

  /** Exchanging accepting and other states of a total deterministic automaton. */
  lemma {:induction false} FlipComplements(g: Graph, states: set<State>, h: Graph, q: State, w: Word)
    requires g.Deterministic() && g.Total() && Closed(g, states) && q in states
    requires h.trans == g.trans && h.accept * states == states - g.accept
    ensures h.Accepts(q, w) <==> !g.Accepts(q, w)
    decreases |w|
  {
    if w == [] {
      assert q in h.accept <==> q in h.accept * states;
    } else {
      assert g.Succ(q, w[0]) == h.Succ(q, w[0]);
      var p :| p in g.Succ(q, w[0]);
      forall r | r in g.Succ(q, w[0]) ensures r == p {
        DeterministicStep(g, q, w[0], p, r);
      }
      FlipComplements(g, states, h, p, w[1..]);
    }
  }

  method Complement(a: Automaton) returns (b: Automaton)
    requires a.Valid()
    ensures fresh(b) && b.Clean() && b.deterministic
    ensures forall w :: b.Snapshot().Language(w) <==> !a.Snapshot().Language(w)
  {
    b := Clone(a);
    BasicOperations.Determinize(b);
    ghost var d := b.Snapshot();
    b.Totalize();
    ghost var g := b.Snapshot();
    assert b.initial in g.trans && b.initial != b.nextId - 1;
    var states := b.GetStates();
    b.accept := (b.accept - states) + (states - b.accept);
    ghost var h := b.Snapshot();
    b.RemoveDeadTransitions();
    forall w ensures b.Snapshot().Language(w) <==> !a.Snapshot().Language(w) {
      FlipComplements(g, states, h, g.initial, w);
      assert d.Language(w) <==> a.Snapshot().Language(w);
      assert g.Accepts(g.initial, w) <==> d.Accepts(d.initial, w);
    }
  }

  // ----- intersection -----

  type Pair = (State, State)

  predicate Overlap(t: Transition, u: Transition) {
    t.min <= u.max && u.min <= t.max
  }

  /** The first k transitions end in front of lo. */
  ghost predicate Behind(ts: seq<Transition>, k: nat, lo: Char)
    requires k <= |ts|
  {
    forall i {:trigger ts[i]} :: 0 <= i < k ==> ts[i].max < lo
  }

  /** The transitions of a sorted row that overlap t, the first b2 being behind it. */
  method OverlapsOf(t: Transition, t2: seq<Transition>, b2: nat) returns (pairs: seq<(Transition, Transition)>)
    requires Sorted(t2, false) && b2 <= |t2| && Behind(t2, b2, t.min)
    ensures forall e :: e in pairs <==> e.0 == t && e.1 in t2 && Overlap(t, e.1)
  {
    pairs := [];
    var n2 := b2;
    while n2 < |t2| && t.max >= t2[n2].min
      invariant b2 <= n2 <= |t2|
      invariant forall e :: e in pairs <==> e.0 == t && e.1 in t2[b2..n2] && Overlap(t, e.1)
    {
      if t2[n2].max >= t.min {
        pairs := pairs + [(t, t2[n2])];
      }
      n2 := n2 + 1;
    }
    forall u | u in t2 && Overlap(t, u) ensures u in t2[b2..n2] {
      NotBehind(t, t2, b2, n2, u);
    }
  }

  /** What overlaps lies between what is behind and what begins too late. */
  lemma NotBehind(t: Transition, t2: seq<Transition>, b2: nat, n2: nat, u: Transition)
    requires Sorted(t2, false) && b2 <= n2 <= |t2| && Behind(t2, b2, t.min) && (n2 < |t2| ==> t.max < t2[n2].min)
        && u in t2 && Overlap(t, u)
    ensures u in t2[b2..n2]
  {
    var k :| 0 <= k < |t2| && t2[k] == u;
    assert n2 < k ==> Before(t2[n2], t2[k], false);
    assert b2 <= k < n2;
    assert t2[b2..n2][k - b2] == u;
  }

  /** The sweep over two sorted rows: the overlapping pairs of transitions. */
  method Overlaps(t1: seq<Transition>, t2: seq<Transition>) returns (pairs: seq<(Transition, Transition)>)
    requires Sorted(t1, false) && Sorted(t2, false)
    ensures forall e :: e in pairs <==> e.0 in t1 && e.1 in t2 && Overlap(e.0, e.1)
  {
    pairs := [];
    var b2 := 0;
    for n1 := 0 to |t1|
      invariant b2 <= |t2| && (n1 < |t1| ==> Behind(t2, b2, t1[n1].min))
      invariant forall e :: e in pairs <==> e.0 in t1[..n1] && e.1 in t2 && Overlap(e.0, e.1)
    {
      while b2 < |t2| && t2[b2].max < t1[n1].min
        invariant b2 <= |t2| && Behind(t2, b2, t1[n1].min)
      {
        b2 := b2 + 1;
      }
      var more := OverlapsOf(t1[n1], t2, b2);
      pairs := pairs + more;
      assert n1 + 1 < |t1| ==> Before(t1[n1], t1[n1 + 1], false);
    }
    assert t1[..|t1|] == t1;
  }

  /** The characters that two transitions share. */
  function Meet(t: Transition, u: Transition, to: State): Transition {
    Transition(if t.min > u.min then t.min else u.min, if t.max < u.max then t.max else u.max, to)
  }

  ghost predicate Meets(g1: Graph, g2: Graph, p: Pair, e: (Transition, Transition)) {
    e.0 in g1.Out(p.0) && e.1 in g2.Out(p.1) && Overlap(e.0, e.1)
  }

  /** The state of pair p has its transitions and its acceptance. */
  ghost predicate Built(g1: Graph, g2: Graph, number: map<Pair, State>, p: Pair, row: set<Transition>) {
    && (forall e {:trigger Meets(g1, g2, p, e)} :: Meets(g1, g2, p, e) ==>
         (e.0.to, e.1.to) in number && Meet(e.0, e.1, number[(e.0.to, e.1.to)]) in row)
    && (forall t {:trigger t in row} :: t in row ==>
         exists e :: Meets(g1, g2, p, e) && (e.0.to, e.1.to) in number && t == Meet(e.0, e.1, number[(e.0.to, e.1.to)]))
  }

  ghost predicate Existing(g1: Graph, g2: Graph, p: Pair) {
    p.0 in g1.trans && p.1 in g2.trans
  }

  /** The transitions of one pair state: the loops over overlapping transitions. */
  method Expand(g1: Graph, g2: Graph, p: Pair, es: seq<(Transition, Transition)>, ghost pairs0: seq<Pair>,
      number0: map<Pair, State>, worklist0: seq<Pair>, next0: nat)
      returns (row: set<Transition>, number: map<Pair, State>, worklist: seq<Pair>, next: nat, ghost pairs: seq<Pair>)
    requires g1.Valid() && g2.Valid() && Existing(g1, g2, p)
    requires forall e {:trigger e in es} {:trigger Meets(g1, g2, p, e)} :: e in es <==> Meets(g1, g2, p, e)
    requires Numbering(pairs0, number0) && next0 == |pairs0| && (forall i :: 0 <= i < |pairs0| ==>
        Existing(g1, g2, pairs0[i]))
    ensures Numbering(pairs, number) && next == |pairs| && (forall i :: 0 <= i < |pairs| ==> Existing(g1, g2, pairs[i]))
    ensures pairs0 <= pairs && worklist == worklist0 + pairs[|pairs0|..] && Extends(number0, number)
    ensures Built(g1, g2, number, p, row)
  {
    row, number, worklist, next, pairs := {}, number0, worklist0, next0, pairs0;
    for i := 0 to |es|
      invariant Numbering(pairs, number) && next == |pairs| && (forall i :: 0 <= i < |pairs| ==>
          Existing(g1, g2, pairs[i]))
      invariant pairs0 <= pairs && worklist == worklist0 + pairs[|pairs0|..] && Extends(number0, number)
      invariant forall j {:trigger es[j]} :: 0 <= j < i ==>
          (es[j].0.to, es[j].1.to) in number && Meet(es[j].0, es[j].1, number[(es[j].0.to, es[j].1.to)]) in row
      invariant forall t {:trigger t in row} :: t in row ==>
          exists e :: e in es && (e.0.to, e.1.to) in number && t == Meet(e.0, e.1, number[(e.0.to, e.1.to)])
    {
      var e := es[i];
      assert e in es;
      assert Meets(g1, g2, p, e);
      var q := (e.0.to, e.1.to);
      if q !in number {
        worklist := worklist + [q];
        number := number[q := next];
        next := next + 1;
        pairs := pairs + [q];
      }
      row := row + {Meet(e.0, e.1, number[q])};
    }
  }

  lemma BuiltStays(g1: Graph, g2: Graph, number: map<Pair, State>, more: map<Pair, State>, p: Pair,
      row: set<Transition>)
    requires Built(g1, g2, number, p, row) && Extends(number, more)
    ensures Built(g1, g2, more, p, row)
  {
    forall t | t in row ensures exists e :: Meets(g1, g2, p, e) && (e.0.to, e.1.to) in more && t == Meet(e.0, e.1,
        more[(e.0.to, e.1.to)])
    {
      var e :| Meets(g1, g2, p, e) && (e.0.to, e.1.to) in number && t == Meet(e.0, e.1, number[(e.0.to, e.1.to)]);
    }
  }

  ghost predicate BuiltAt(g1: Graph, g2: Graph, number: map<Pair, State>, p: Pair, h: Graph, i: State) {
    && i in h.trans && Built(g1, g2, number, p, h.trans[i])
    && (i in h.accept <==> p.0 in g1.accept && p.1 in g2.accept)
  }

  /** The first done pairs have their states. */
  ghost predicate Progress(g1: Graph, g2: Graph, number: map<Pair, State>, pairs: seq<Pair>, h: Graph, done: nat) {
    && done <= |pairs| && Numbering(pairs, number)
    && (forall i :: 0 <= i < |pairs| ==> Existing(g1, g2, pairs[i]))
    && (forall i :: 0 <= i < done ==> BuiltAt(g1, g2, number, pairs[i], h, i))
    && (forall q :: q in h.trans <==> 0 <= q < done) && h.accept <= h.trans.Keys && h.initial == 0
  }

  lemma ProgressStep(g1: Graph, g2: Graph, number: map<Pair, State>, pairs: seq<Pair>, h: Graph, done: nat,
                     more: map<Pair, State>, pairs': seq<Pair>, row: set<Transition>, h': Graph)
    requires Progress(g1, g2, number, pairs, h, done) && done < |pairs| && pairs <= pairs'
    requires Extends(number, more) && Numbering(pairs', more) && forall i :: 0 <= i < |pairs'| ==>
        Existing(g1, g2, pairs'[i])
    requires Built(g1, g2, more, pairs[done], row)
    requires h' == Graph(0, if pairs[done].0 in g1.accept && pairs[done].1 in g2.accept then h.accept + {done}
        else h.accept, h.trans[done := row])
    ensures Progress(g1, g2, more, pairs', h', done + 1)
  {
    forall i | 0 <= i < done + 1 ensures BuiltAt(g1, g2, more, pairs'[i], h', i) {
      if i < done {
        assert BuiltAt(g1, g2, number, pairs[i], h, i);
        BuiltStays(g1, g2, number, more, pairs[i], h.trans[i]);
      }
    }
  }

  ghost function Unmet(g1: Graph, g2: Graph, number: map<Pair, State>): set<Pair> {
    (set p, q | p in g1.trans.Keys && q in g2.trans.Keys :: (p, q)) - number.Keys
  }

  lemma UnmetShrinks(g1: Graph, g2: Graph, number: map<Pair, State>, more: map<Pair, State>, pairs: seq<Pair>,
      pairs': seq<Pair>)
    requires Extends(number, more) && Numbering(pairs, number) && Numbering(pairs', more) && pairs <= pairs'
    requires forall i :: 0 <= i < |pairs'| ==> Existing(g1, g2, pairs'[i])
    ensures pairs != pairs' ==> Unmet(g1, g2, more) < Unmet(g1, g2, number)
    ensures pairs == pairs' ==> Unmet(g1, g2, more) == Unmet(g1, g2, number)
  {
    assert Unmet(g1, g2, more) <= Unmet(g1, g2, number);
    if pairs != pairs' {
      var p := pairs'[|pairs|];
      assert p in more && p !in number;
      assert p in Unmet(g1, g2, number) && p !in Unmet(g1, g2, more);
    } else {
      assert forall p :: p in more ==> p in number;
    }
  }

  /** h is the product of g1 and g2, its states numbering pairs of states. */
  ghost predicate IsProduct(g1: Graph, g2: Graph, number: map<Pair, State>, pairs: seq<Pair>, h: Graph) {
    Progress(g1, g2, number, pairs, h, |pairs|) && pairs != [] && pairs[0] == (g1.initial, g2.initial)
  }

  /** The worklist loop of intersection. */
  method Product(g1: Graph, g2: Graph) returns (h: Graph, next: nat, ghost pairs: seq<Pair>, ghost numbering: map<Pair,
      State>)
    requires g1.Valid() && g2.Valid()
    ensures IsProduct(g1, g2, numbering, pairs, h) && next == |pairs|
  {
    var start := (g1.initial, g2.initial);
    var worklist: seq<Pair>, number: map<Pair, State> := [start], map[start := 0];
    h, next, pairs := Graph(0, {}, map[]), 1, [start];
    ghost var done := 0;
    while worklist != []
      invariant Progress(g1, g2, number, pairs, h, done)
      invariant |pairs| == next && worklist == pairs[done..] && pairs != [] && pairs[0] == start
      decreases Unmet(g1, g2, number), |worklist|
    {
      var p := worklist[0];
      worklist := worklist[1..];
      assert Existing(g1, g2, p);
      var r := number[p];
      var t1 := SortTransitions(g1.trans[p.0], false);
      var t2 := SortTransitions(g2.trans[p.1], false);
      var es := Overlaps(t1, t2);
      assert forall e {:trigger e in es} {:trigger Meets(g1, g2, p, e)} :: e in es <==> Meets(g1, g2, p, e);
      var accept := if p.0 in g1.accept && p.1 in g2.accept then h.accept + {r} else h.accept;
      ghost var number0, pairs0 := number, pairs;
      var row;
      row, number, worklist, next, pairs := Expand(g1, g2, p, es, pairs, number, worklist, next);
      ProgressStep(g1, g2, number0, pairs0, h, done, number, pairs, row, Graph(0, accept, h.trans[r := row]));
      h := Graph(0, accept, h.trans[r := row]);
      done := done + 1;
      UnmetShrinks(g1, g2, number0, number, pairs0, pairs);
    }
    numbering := number;
  }

  /** The product goes exactly where both components can go. */
  lemma ProductSucc(g1: Graph, g2: Graph, number: map<Pair, State>, pairs: seq<Pair>, h: Graph, i: State, c: Char,
      r: State)
    requires IsProduct(g1, g2, number, pairs, h) && i < |pairs|
    ensures r in h.Succ(i, c) <==>
      r < |pairs| && pairs[r].0 in g1.Succ(pairs[i].0, c) && pairs[r].1 in g2.Succ(pairs[i].1, c)
  {
    var p := pairs[i];
    assert BuiltAt(g1, g2, number, p, h, i);
    if r in h.Succ(i, c) {
      var t :| t in h.trans[i] && t.Covers(c) && t.to == r;
      var e :| Meets(g1, g2, p, e) && (e.0.to, e.1.to) in number && t == Meet(e.0, e.1, number[(e.0.to, e.1.to)]);
      assert e.0.Covers(c) && e.1.Covers(c);
    }
    if r < |pairs| && pairs[r].0 in g1.Succ(p.0, c) && pairs[r].1 in g2.Succ(p.1, c) {
      var t :| t in g1.Out(p.0) && t.Covers(c) && t.to == pairs[r].0;
      var u :| u in g2.Out(p.1) && u.Covers(c) && u.to == pairs[r].1;
      assert Meets(g1, g2, p, (t, u));
      assert (t.to, u.to) == pairs[r];
      assert Meet(t, u, r).Covers(c) && Meet(t, u, r) in h.trans[i];
    }
  }

  lemma MetInBoth(g1: Graph, g2: Graph, number: map<Pair, State>, pairs: seq<Pair>, h: Graph, i: State, c: Char,
      q1: State, q2: State) returns (r: State)
    requires IsProduct(g1, g2, number, pairs, h) && i < |pairs| && q1 in g1.Succ(pairs[i].0, c)
        && q2 in g2.Succ(pairs[i].1, c)
    ensures r < |pairs| && pairs[r] == (q1, q2) && r in h.Succ(i, c)
  {
    var p := pairs[i];
    assert BuiltAt(g1, g2, number, p, h, i);
    var t :| t in g1.Out(p.0) && t.Covers(c) && t.to == q1;
    var u :| u in g2.Out(p.1) && u.Covers(c) && u.to == q2;
    assert Meets(g1, g2, p, (t, u));
    assert (t.to, u.to) in number;
    r := number[(q1, q2)];
    ProductSucc(g1, g2, number, pairs, h, i, c, r);
  }

  /** A pair accepts what both of its states accept. */
  lemma {:induction false} ProductAccepts(g1: Graph, g2: Graph, number: map<Pair, State>, pairs: seq<Pair>, h: Graph,
      i: State, w: Word)
    requires IsProduct(g1, g2, number, pairs, h) && i < |pairs|
    ensures h.Accepts(i, w) <==> g1.Accepts(pairs[i].0, w) && g2.Accepts(pairs[i].1, w)
    decreases |w|
  {
    assert BuiltAt(g1, g2, number, pairs[i], h, i);
    if w != [] {
      if r :| r in h.Succ(i, w[0]) && h.Accepts(r, w[1..]) {
        ProductSucc(g1, g2, number, pairs, h, i, w[0], r);
        ProductAccepts(g1, g2, number, pairs, h, r, w[1..]);
      }
      if g1.Accepts(pairs[i].0, w) && g2.Accepts(pairs[i].1, w) {
        var q1 :| q1 in g1.Succ(pairs[i].0, w[0]) && g1.Accepts(q1, w[1..]);
        var q2 :| q2 in g2.Succ(pairs[i].1, w[0]) && g2.Accepts(q2, w[1..]);
        var r := MetInBoth(g1, g2, number, pairs, h, i, w[0], q1, q2);
        ProductAccepts(g1, g2, number, pairs, h, r, w[1..]);
      }
    }
  }

  lemma ProductIsValid(g1: Graph, g2: Graph, number: map<Pair, State>, pairs: seq<Pair>, h: Graph)
    requires g1.Valid() && g2.Valid() && IsProduct(g1, g2, number, pairs, h)
    ensures h.Valid()
  {
    forall q, t | q in h.trans && t in h.trans[q] ensures t.min <= t.max && t.to in h.trans {
      assert BuiltAt(g1, g2, number, pairs[q], h, q);
      var e :| Meets(g1, g2, pairs[q], e) && (e.0.to, e.1.to) in number
        && t == Meet(e.0, e.1, number[(e.0.to, e.1.to)]);
      assert e.0 in g1.trans[pairs[q].0] && e.1 in g2.trans[pairs[q].1];
    }
  }

  lemma ProductIsDeterministic(g1: Graph, g2: Graph, number: map<Pair, State>, pairs: seq<Pair>, h: Graph)
    requires IsProduct(g1, g2, number, pairs, h) && g1.Deterministic() && g2.Deterministic()
    ensures h.Deterministic()
  {
    forall q, t, u | q in h.trans && t in h.trans[q] && u in h.trans[q] && t != u
        ensures t.max < u.min || u.max < t.min
    {
      var p := pairs[q];
      assert BuiltAt(g1, g2, number, p, h, q);
      var d :| Meets(g1, g2, p, d) && (d.0.to, d.1.to) in number && t == Meet(d.0, d.1, number[(d.0.to, d.1.to)]);
      var e :| Meets(g1, g2, p, e) && (e.0.to, e.1.to) in number && u == Meet(e.0, e.1, number[(e.0.to, e.1.to)]);
      assert d.0 != e.0 || d.1 != e.1;
      assert d.0 in g1.trans[p.0] && e.0 in g1.trans[p.0];
      assert d.1 in g2.trans[p.1] && e.1 in g2.trans[p.1];
    }
  }

  method Intersection(a1: Automaton, a2: Automaton) returns (c: Automaton)
    requires a1.Valid() && a2.Valid()
    ensures fresh(c) && c.Valid() && (a1 != a2 ==> c.Clean())
    ensures a1 == a2 ==> c.Snapshot() == a1.Snapshot()
    ensures c.deterministic == (a1.deterministic && a2.deterministic)
    ensures forall w :: c.Snapshot().Language(w) <==> a1.Snapshot().Language(w) && a2.Snapshot().Language(w)
  {
    if a1 == a2 {
      c := Clone(a1);
      return;
    }
    ghost var g1, g2 := a1.Snapshot(), a2.Snapshot();
    var h, next;
    ghost var pairs, number;
    h, next, pairs, number := Product(a1.Snapshot(), a2.Snapshot());
    ProductIsValid(g1, g2, number, pairs, h);
    if a1.deterministic && a2.deterministic {
      ProductIsDeterministic(g1, g2, number, pairs, h);
    }
    c := new Automaton.FromGraph(h, next, a1.deterministic && a2.deterministic);
    c.RemoveDeadTransitions();
    forall w ensures c.Snapshot().Language(w) <==> g1.Language(w) && g2.Language(w) {
      ProductAccepts(g1, g2, number, pairs, h, 0, w);
    }
  }

  /** The words of a1 that are not words of a2. */
  method Minus(a1: Automaton, a2: Automaton) returns (c: Automaton)
    requires a1.Valid() && a2.Valid()
    ensures fresh(c) && c.Valid() && (a1.Clean() ==> c.Clean())
    ensures a1.Snapshot().NoDeadTransitions() ==> c.Snapshot().NoDeadTransitions()
    ensures forall w :: c.Snapshot().Language(w) <==> a1.Snapshot().Language(w) && !a2.Snapshot().Language(w)
  {
    var empty1 := IsEmpty(a1);
    if empty1 || a1 == a2 {
      c := MakeEmpty();
      return;
    }
    var empty2 := IsEmpty(a2);
    if empty2 {
      c := Clone(a1);
      return;
    }
    var complement := Complement(a2);
    c := Intersection(a1, complement);
  }
}
