/** Optional, Kleene star, bounded repetition, and the union of a list. */
module Repetitions {
  import opened Languages
  import opened Automata
  import opened Products
  import opened Unions
  import opened Concatenations

  // ----- powers of a language -----

  ghost predicate Power(g: Graph, n: nat, w: Word) {
    if n == 0 then w == [] else exists i: nat :: i <= |w| && g.Language(w[..i]) && Power(g, n - 1, w[i..])
  }

  ghost predicate PowersMeet(g: Graph, m: nat, n: nat, w: Word, i: nat) {
    i <= |w| && Power(g, m, w[..i]) && Power(g, n, w[i..])
  }

  lemma {:induction false} PowerSplits(g: Graph, m: nat, n: nat, w: Word) returns (i: nat)
    requires Power(g, m + n, w)
    ensures PowersMeet(g, m, n, w, i)
    decreases m
  {
    if m == 0 {
      i := 0;
      assert w[..0] == [] && w[0..] == w;
    } else {
      var j: nat :| j <= |w| && g.Language(w[..j]) && Power(g, m + n - 1, w[j..]);
      var k := PowerSplits(g, m - 1, n, w[j..]);
      i := j + k;
      assert w[..i][..j] == w[..j] && w[..i][j..] == w[j..][..k] && w[i..] == w[j..][k..];
    }
  }

  lemma {:induction false} PowersJoin(g: Graph, m: nat, n: nat, w: Word, i: nat)
    requires PowersMeet(g, m, n, w, i)
    ensures Power(g, m + n, w)
    decreases m
  {
    if m == 0 {
      assert w[..i] == [] && w[i..] == w;
    } else {
      var j: nat :| j <= i && g.Language(w[..i][..j]) && Power(g, m - 1, w[..i][j..]);
      assert w[..i][..j] == w[..j] && w[..i][j..] == w[j..][..i - j] && w[i..] == w[j..][i - j..];
      PowersJoin(g, m - 1, n, w[j..], i - j);
    }
  }

  lemma PowerOne(g: Graph, w: Word)
    ensures Power(g, 1, w) <==> g.Language(w)
  {
    assert w[..|w|] == w && w[|w|..] == [];
    if i: nat :| i <= |w| && g.Language(w[..i]) && Power(g, 0, w[i..]) {
      assert i == |w|;
    }
    assert Power(g, 0, w[|w|..]);
  }

  /** Kleene star. */
  ghost predicate Star(g: Graph, w: Word) {
    exists n: nat :: Power(g, n, w)
  }

  ghost predicate StarAt(g: Graph, q: State, w: Word, i: nat) {
    i <= |w| && g.Accepts(q, w[..i]) && Star(g, w[i..])
  }

  /** A word accepted from q, followed by words of the language. */
  ghost predicate StarFrom(g: Graph, q: State, w: Word) {
    exists i: nat :: StarAt(g, q, w, i)
  }

  lemma StarNothing(g: Graph, q: State)
    ensures Star(g, []) && (StarFrom(g, q, []) <==> q in g.accept)
  {
    var w: Word := [];
    assert Power(g, 0, w) && w[..0] == [] && w[0..] == [];
    if q in g.accept {
      assert StarAt(g, q, w, 0);
    }
  }

  lemma StarFromDown(g: Graph, q: State, w: Word, i: nat) returns (p: State)
    requires w != [] && i > 0 && StarAt(g, q, w, i)
    ensures p in g.Succ(q, w[0]) && StarAt(g, p, w[1..], i - 1)
  {
    assert w[..i][1..] == w[1..][..i - 1] && w[i..] == w[1..][i - 1..];
    p :| p in g.Succ(q, w[..i][0]) && g.Accepts(p, w[..i][1..]);
  }

  lemma StarFromUp(g: Graph, q: State, w: Word, p: State, i: nat)
    requires w != [] && p in g.Succ(q, w[0]) && StarAt(g, p, w[1..], i)
    ensures StarAt(g, q, w, i + 1)
  {
    assert w[..i + 1][1..] == w[1..][..i] && w[i + 1..] == w[1..][i..];
    assert w[..i + 1][0] == w[0];
  }

  lemma StarFromStep(g: Graph, q: State, w: Word)
    requires w != []
    ensures StarFrom(g, q, w) <==> (q in g.accept && Star(g, w)) || exists p ::
        p in g.Succ(q, w[0]) && StarFrom(g, p, w[1..])
  {
    if i: nat :| StarAt(g, q, w, i) {
      if i == 0 {
        assert w[0..] == w && w[..0] == [];
      } else {
        var p := StarFromDown(g, q, w, i);
      }
    }
    if q in g.accept && Star(g, w) {
      assert w[..0] == [] && w[0..] == w;
      assert StarAt(g, q, w, 0);
    }
    if p :| p in g.Succ(q, w[0]) && StarFrom(g, p, w[1..]) {
      var i: nat :| StarAt(g, p, w[1..], i);
      StarFromUp(g, q, w, p, i);
    }
  }

  /** Empty pieces at the front can be left out. */
  lemma {:induction false} FirstPiece(g: Graph, n: nat, w: Word) returns (i: nat)
    requires Power(g, n, w) && w != []
    ensures 0 < i <= |w| && g.Language(w[..i]) && Star(g, w[i..])
    decreases n
  {
    var j: nat :| j <= |w| && g.Language(w[..j]) && Power(g, n - 1, w[j..]);
    if j > 0 {
      i := j;
    } else {
      assert w[0..] == w;
      i := FirstPiece(g, n - 1, w);
    }
  }

  lemma StarUnfolds(g: Graph, w: Word)
    requires w != []
    ensures Star(g, w) <==> exists p :: p in g.Succ(g.initial, w[0]) && StarFrom(g, p, w[1..])
  {
    if n: nat :| Power(g, n, w) {
      var i := FirstPiece(g, n, w);
      assert w[..i][1..] == w[1..][..i - 1] && w[i..] == w[1..][i - 1..];
      var p :| p in g.Succ(g.initial, w[0]) && g.Accepts(p, w[..i][1..]);
      assert StarAt(g, p, w[1..], i - 1);
    }
    if p :| p in g.Succ(g.initial, w[0]) && StarFrom(g, p, w[1..]) {
      var i: nat :| StarAt(g, p, w[1..], i);
      assert w[..i + 1][1..] == w[1..][..i] && w[i + 1..] == w[1..][i..];
      assert g.Language(w[..i + 1]);
      var n: nat :| Power(g, n, w[i + 1..]);
      assert Power(g, n + 1, w);
    }
  }

  // ----- repeat -----

  ghost predicate StarredAt(g: Graph, ac: set<State>, h: Graph, q: State)
    requires q in g.trans
  {
    && q in h.trans && (q in h.accept <==> q in g.accept)
    && h.trans[q] == g.trans[q] + (if q in ac then g.Out(g.initial) else {})
  }

  /** A new accepting initial state that starts like the old one, and the same transitions again from the states of ac.
      */
  ghost predicate Starred(g: Graph, ac: set<State>, h: Graph) {
    && g.Valid() && h.initial !in g.trans && h.initial in h.accept && h.trans.Keys == g.trans.Keys + {h.initial}
    && h.trans[h.initial] == g.trans[g.initial] && h.accept <= h.trans.Keys
    && forall q {:trigger StarredAt(g, ac, h, q)} :: q in g.trans ==> StarredAt(g, ac, h, q)
  }

  lemma {:induction false} StarredAccepts(g: Graph, part: set<State>, ac: set<State>, h: Graph, q: State, w: Word)
    requires Starred(g, ac, h) && AcceptOf(g, part, ac) && q in part
    ensures h.Accepts(q, w) <==> StarFrom(g, q, w)
    decreases |w|
  {
    assert StarredAt(g, ac, h, q);
    if w == [] {
      StarNothing(g, q);
    } else {
      StarFromStep(g, q, w);
      StarUnfolds(g, w);
      assert h.Succ(q, w[0]) == g.Succ(q, w[0]) + (if q in ac then g.Succ(g.initial, w[0]) else {});
      forall p | p in g.Succ(q, w[0]) + g.Succ(g.initial, w[0])
          ensures h.Accepts(p, w[1..]) <==> StarFrom(g, p, w[1..])
      {
        StarredAccepts(g, part, ac, h, p, w[1..]);
      }
    }
  }

  lemma StarredLanguage(g: Graph, part: set<State>, ac: set<State>, h: Graph, w: Word)
    requires Starred(g, ac, h) && AcceptOf(g, part, ac)
    ensures h.Language(w) <==> Star(g, w)
  {
    if w == [] {
      StarNothing(g, g.initial);
    } else {
      StarUnfolds(g, w);
      assert h.Succ(h.initial, w[0]) == g.Succ(g.initial, w[0]);
      forall p | p in g.Succ(g.initial, w[0]) ensures h.Accepts(p, w[1..]) <==> StarFrom(g, p, w[1..]) {
        StarredAccepts(g, part, ac, h, p, w[1..]);
      }
    }
  }

  lemma StarredIsValid(g: Graph, ac: set<State>, h: Graph)
    requires Starred(g, ac, h)
    ensures h.Valid()
  {
    forall q, t | q in h.trans && t in h.trans[q] ensures t.min <= t.max && t.to in h.trans {
      assert q in g.trans ==> StarredAt(g, ac, h, q);
    }
  }

  /** Zero or more repetitions. */
  method Repeat(a: Automaton) returns (b: Automaton)
    requires a.Valid()
    ensures fresh(b) && b.Valid() && !b.deterministic
    ensures forall w :: b.Snapshot().Language(w) <==> Star(a.Snapshot(), w)
  {
    b := Clone(a);
    ghost var g := b.Snapshot();
    var ac := b.GetAcceptStates();
    AcceptStatesAre(g, ac);
    var s := b.nextId;
    b.nextId, b.accept, b.trans, b.deterministic := s + 1, b.accept + {s}, b.trans[s := b.trans[b.initial]], false;
    var todo := ac;
    while todo != {}
      invariant todo <= ac && b.initial == g.initial && b.accept == g.accept + {s} && b.nextId == s + 1
          && !b.deterministic
      invariant Starred(g, ac - todo, Graph(s, b.accept, b.trans))
    {
      var p :| p in todo;
      StarOne(g, ac - todo, Graph(s, b.accept, b.trans), p);
      assert ac - todo + {p} == ac - (todo - {p});
      todo := todo - {p};
      b.accept := b.accept + {p};
      b.trans := b.trans[p := b.trans[p] + b.trans[s]];
    }
    assert ac - todo == ac;
    b.initial := s;
    StarredIsValid(g, ac, b.Snapshot());
    forall w ensures b.Snapshot().Language(w) <==> Star(g, w) {
      StarredLanguage(g, g.ReachableStates(), ac, b.Snapshot(), w);
    }
  }

  lemma StarOne(g: Graph, ac: set<State>, h: Graph, p: State)
    requires Starred(g, ac, h) && p in g.accept
    ensures Starred(g, ac + {p}, h.(accept := h.accept + {p}, trans := h.trans[p := h.trans[p] + h.trans[h.initial]]))
    ensures h.accept + {p} == h.accept
  {
    var h' := h.(accept := h.accept + {p}, trans := h.trans[p := h.trans[p] + h.trans[h.initial]]);
    assert StarredAt(g, ac, h, p);
    forall q | q in g.trans ensures StarredAt(g, ac + {p}, h', q) {
      assert StarredAt(g, ac, h, q);
    }
  }

  // ----- at least so many -----

  ghost predicate AtLeast(g: Graph, min: nat, w: Word) {
    exists n: nat :: min <= n && Power(g, n, w)
  }

  lemma {:induction false} CopiesArePowers(g: Graph, gs: seq<Graph>, w: Word)
    requires forall i :: 0 <= i < |gs| ==> gs[i] == g
    ensures Sequence(gs, w) <==> Power(g, |gs|, w)
    decreases |gs|
  {
    if gs != [] {
      var rest := gs[..|gs| - 1];
      forall v ensures Sequence(rest, v) <==> Power(g, |rest|, v) {
        CopiesArePowers(g, rest, v);
      }
      assert gs == rest + [g];
      OneMoreCopy(g, rest, w);
    }
  }

  lemma OneMoreCopy(g: Graph, rest: seq<Graph>, w: Word)
    requires forall v :: Sequence(rest, v) <==> Power(g, |rest|, v)
    ensures Sequence(rest + [g], w) <==> Power(g, |rest| + 1, w)
  {
    SequenceStep(rest, g, w);
    if i: nat :| i <= |w| && Sequence(rest, w[..i]) && g.Language(w[i..]) {
      PowerOne(g, w[i..]);
      PowersJoin(g, |rest|, 1, w, i);
    }
    if Power(g, |rest| + 1, w) {
      var i := PowerSplits(g, |rest|, 1, w);
      PowerOne(g, w[i..]);
      assert Sequence(rest, w[..i]);
    }
  }

  lemma AtLeastJoins(g: Graph, gs: seq<Graph>, w: Word, i: nat)
    requires (forall k :: 0 <= k < |gs| ==> gs[k] == g) && i <= |w| && Sequence(gs, w[..i]) && Star(g, w[i..])
    ensures AtLeast(g, |gs|, w)
  {
    CopiesArePowers(g, gs, w[..i]);
    var n: nat :| Power(g, n, w[i..]);
    PowersJoin(g, |gs|, n, w, i);
  }

  lemma AtLeastParts(g: Graph, gs: seq<Graph>, w: Word) returns (i: nat)
    requires (forall k :: 0 <= k < |gs| ==> gs[k] == g) && AtLeast(g, |gs|, w)
    ensures i <= |w| && Sequence(gs, w[..i]) && Star(g, w[i..])
  {
    var n: nat :| |gs| <= n && Power(g, n, w);
    i := PowerSplits(g, |gs|, n - |gs|, w);
    CopiesArePowers(g, gs, w[..i]);
  }

  lemma AtLeastSplits(g: Graph, h: Graph, gs: seq<Graph>, w: Word)
    requires (forall k :: 0 <= k < |gs| ==> gs[k] == g) && forall v :: h.Language(v) <==> Star(g, v)
    ensures Sequence(gs + [h], w) <==> AtLeast(g, |gs|, w)
  {
    SequenceStep(gs, h, w);
    if i: nat :| i <= |w| && Sequence(gs, w[..i]) && h.Language(w[i..]) {
      AtLeastJoins(g, gs, w, i);
    }
    if AtLeast(g, |gs|, w) {
      var i := AtLeastParts(g, gs, w);
    }
  }

  method Copies(a: Automaton, n: nat) returns (list: seq<Automaton>)
    ensures |list| == n && forall i :: 0 <= i < n ==> list[i] == a
  {
    list := [];
    var k := n;
    while k > 0
      invariant 0 <= k <= n && |list| == n - k && forall i :: 0 <= i < |list| ==> list[i] == a
    {
      list, k := list + [a], k - 1;
    }
  }

  /** min or more repetitions. */
  method RepeatMin(a: Automaton, min: nat) returns (b: Automaton)
    requires a.Valid()
    ensures fresh(b) && b.Valid() && (b.deterministic ==> b.Clean())
    ensures forall w :: b.Snapshot().Language(w) <==> AtLeast(a.Snapshot(), min, w)
  {
    ghost var g := a.Snapshot();
    if min == 0 {
      b := Repeat(a);
      assert forall w :: Star(g, w) <==> AtLeast(g, 0, w);
      return;
    }
    var list := Copies(a, min);
    var star := Repeat(a);
    ghost var h := star.Snapshot();
    ghost var gs := Snapshots(list);
    assert Snapshots(list + [star]) == gs + [h] by {
      assert forall i :: 0 <= i < |list + [star]| ==> Snapshots(list + [star])[i] == (gs + [h])[i];
    }
    b := ConcatenateAll(list + [star]);
    forall w ensures b.Snapshot().Language(w) <==> AtLeast(g, min, w) {
      AtLeastSplits(g, h, gs, w);
    }
  }

  // ----- between two bounds -----

  ghost predicate Between(g: Graph, min: nat, max: int, w: Word) {
    exists n: nat :: min <= n <= max && Power(g, n, w)
  }

  /** What a copy linked to a chain of k copies accepts. */
  lemma ChainGrows(g: Graph, d: Graph, min: nat, k: nat, w: Word)
    requires forall v :: d.Language(v) <==> Between(g, 1, k, v)
    ensures (exists i: nat :: i <= |w| && Power(g, min, w[..i]) && d.Language(w[i..])) <==>
        Between(g, min + 1, min + k, w)
  {
    if i: nat :| i <= |w| && Power(g, min, w[..i]) && d.Language(w[i..]) {
      var n: nat :| 1 <= n <= k && Power(g, n, w[i..]);
      PowersJoin(g, min, n, w, i);
    }
    if n: nat :| min + 1 <= n <= min + k && Power(g, n, w) {
      var i := PowerSplits(g, min, n - min, w);
      assert Between(g, 1, k, w[i..]);
    }
  }

  lemma LinkedChain(g: Graph, b: Graph, d: Graph, h: Graph, min: nat, k: nat)
    requires forall v :: d.Language(v) <==> Between(g, 1, k, v)
    requires forall v :: b.Language(v) <==> Power(g, min, v)
    requires forall v :: h.Language(v) <==> b.Language(v) || Concatenated(b, d, v)
    ensures forall w :: h.Language(w) <==> Between(g, min, min + k, w)
  {
    forall w ensures h.Language(w) <==> Between(g, min, min + k, w) {
      ChainGrows(g, d, min, k, w);
      if i: nat :| SplitsAt(b, d, w, i) {
        assert i <= |w| && Power(g, min, w[..i]) && d.Language(w[i..]);
      }
      if i: nat :| i <= |w| && Power(g, min, w[..i]) && d.Language(w[i..]) {
        assert SplitsAt(b, d, w, i);
      }
      assert Between(g, min, min + k, w) <==> Power(g, min, w) || Between(g, min + 1, min + k, w);
    }
  }

  /** Adds an epsilon transition from every accepting state of b to the start of d, in place. */
  method LinkAccepting(b: Automaton, d: Automaton)
    requires b.Valid() && d.Valid() && b != d
    modifies b
    ensures b.Valid() && !b.deterministic
    ensures forall w :: b.Snapshot().Language(w) <==>
        old(b.Snapshot()).Language(w) || Concatenated(old(b.Snapshot()), d.Snapshot(), w)
  {
    ghost var g1, g2, e := b.Snapshot(), d.Snapshot(), b.nextId;
    var ac := b.GetAcceptStates();
    AcceptStatesAre(g1, ac);
    Link(b, ac, d, true);
    forall w ensures b.Snapshot().Language(w) <==> g1.Language(w) || Concatenated(g1, g2, w) {
      LinkedLanguage(g1, g2, e, g1.ReachableStates(), ac, true, b.Snapshot(), w);
    }
  }

  /** The chain of k clones: one up to k repetitions. */
  method Chain(a: Automaton, k: nat) returns (d: Automaton)
    requires a.Valid() && k > 0
    ensures fresh(d) && d.Valid()
    ensures forall w :: d.Snapshot().Language(w) <==> Between(a.Snapshot(), 1, k, w)
  {
    ghost var g := a.Snapshot();
    d := Clone(a);
    forall w ensures g.Language(w) <==> Between(g, 1, 1, w) {
      PowerOne(g, w);
    }
    var max := k - 1;
    while max > 0
      invariant 0 <= max < k && fresh(d) && d.Valid()
      invariant forall w :: d.Snapshot().Language(w) <==> Between(g, 1, k - max, w)
      decreases max
    {
      var c := Clone(a);
      ghost var h := d.Snapshot();
      LinkAccepting(c, d);
      forall w ensures g.Language(w) <==> Power(g, 1, w) {
        PowerOne(g, w);
      }
      LinkedChain(g, g, h, c.Snapshot(), 1, k - max);
      d, max := c, max - 1;
    }
  }

  /** min repetitions. */
  method Exactly(a: Automaton, min: nat) returns (b: Automaton)
    requires a.Valid()
    ensures fresh(b) && b.Valid() && (b.deterministic ==>
        b.Clean() || (a.deterministic && b.Snapshot() == a.Snapshot()))
    ensures forall w :: b.Snapshot().Language(w) <==> Power(a.Snapshot(), min, w)
  {
    ghost var g := a.Snapshot();
    if min == 0 {
      b := MakeEmptyString();
    } else if min == 1 {
      b := Clone(a);
      forall w ensures g.Language(w) <==> Power(g, 1, w) {
        PowerOne(g, w);
      }
    } else {
      var list := Copies(a, min);
      b := ConcatenateAll(list);
      forall w ensures b.Snapshot().Language(w) <==> Power(g, min, w) {
        CopiesArePowers(g, Snapshots(list), w);
      }
    }
  }

  /** Between min and max repetitions; nothing at all if min is greater than max. */
  method RepeatMinMax(a: Automaton, min: nat, max: int) returns (b: Automaton)
    requires a.Valid()
    ensures fresh(b) && b.Valid() && (b.deterministic ==>
        b.Clean() || (a.deterministic && b.Snapshot() == a.Snapshot()))
    ensures forall w :: b.Snapshot().Language(w) <==> Between(a.Snapshot(), min, max, w)
  {
    ghost var g := a.Snapshot();
    if min > max {
      b := MakeEmpty();
      return;
    }
    b := Exactly(a, min);
    assert max == min ==> forall w :: Power(g, min, w) <==> Between(g, min, max, w);
    if max - min > 0 {
      var d := Chain(a, max - min);
      ghost var g1, g2 := b.Snapshot(), d.Snapshot();
      LinkAccepting(b, d);
      LinkedChain(g, g1, g2, b.Snapshot(), min, max - min);
    }
  }

  // ----- optional -----

  /** The empty string as well. */
  method Optional(a: Automaton) returns (b: Automaton)
    requires a.Valid()
    ensures fresh(b) && b.Valid() && !b.deterministic
    ensures forall w :: b.Snapshot().Language(w) <==> w == [] || a.Snapshot().Language(w)
  {
    b := Clone(a);
    ghost var g := b.Snapshot();
    var s := b.nextId;
    b.nextId, b.accept, b.trans, b.initial, b.deterministic := s + 1, b.accept + {s}, b.trans[s := b.trans[b.initial]],
      s, false;
    ghost var h := b.Snapshot();
    forall w ensures h.Language(w) <==> w == [] || g.Language(w) {
      if w != [] {
        assert h.Succ(s, w[0]) == g.Succ(g.initial, w[0]);
        forall p | p in g.Succ(g.initial, w[0]) ensures h.Accepts(p, w[1..]) <==> g.Accepts(p, w[1..]) {
          WiderAgrees(g, h, p, w[1..]);
        }
      }
    }
  }

  /** States added beside a graph change nothing for the old ones. */
  lemma {:induction false} WiderAgrees(g: Graph, h: Graph, q: State, w: Word)
    requires g.Valid() && q in g.trans && forall p {:trigger p in g.trans} :: p in g.trans ==>
        p in h.trans && h.trans[p] == g.trans[p] && (p in h.accept <==> p in g.accept)
    ensures h.Accepts(q, w) <==> g.Accepts(q, w)
    decreases |w|
  {
    if w != [] {
      assert h.Succ(q, w[0]) == g.Succ(q, w[0]);
      forall p | p in g.Succ(q, w[0]) ensures h.Accepts(p, w[1..]) <==> g.Accepts(p, w[1..]) {
        WiderAgrees(g, h, p, w[1..]);
      }
    }
  }

  // ----- union of a list -----

  ghost predicate NoWayBack(g: Graph) {
    g.initial == 0 && forall q, t {:trigger t in g.trans[q]} :: q in g.trans && t in g.trans[q] ==> t.to != 0
  }

  lemma {:induction false} NotBack(g: Graph, q: State, w: Word)
    requires NoWayBack(g) && g.Reaches(q, w, 0)
    ensures w == [] && q == 0
    decreases |w|
  {
    if w != [] {
      var p :| p in g.Succ(q, w[0]) && g.Reaches(p, w[1..], 0);
      NotBack(g, p, w[1..]);
    }
  }

  lemma OneMoreOfUnion(g1: Graph, g2: Graph, d: nat, h: Graph)
    requires Linked(g1, g2, d, {0}, true, h) && NoWayBack(g1) && d > 0
        && h.trans.Keys == g1.trans.Keys + LiftedStates(g2.trans.Keys, d)
    ensures NoWayBack(h) && forall w :: h.Language(w) <==> g1.Language(w) || g2.Language(w)
  {
    forall q, t | q in h.trans && t in h.trans[q] ensures t.to != 0 {
      if q in g1.trans {
        assert LinkedAt(g1, g2, d, {0}, true, h, q);
      } else {
        var p :| p in g2.trans && q == Up(p, d);
        assert EmbedsAt(g2, h, d, p);
      }
    }
    forall w ensures h.Language(w) <==> g1.Language(w) || g2.Language(w) {
      LinkedAccepts(g1, g2, d, {0}, true, h, 0, w);
      assert Kept(g1, {0}, true) == g1;
      if i: nat, p :| CrossesAt(g1, g2, {0}, 0, w, i, p) {
        NotBack(g1, 0, w[..i]);
        assert w[i..] == w;
      }
      if g2.Language(w) {
        assert w[..0] == [] && w[0..] == w;
        assert CrossesAt(g1, g2, {0}, 0, w, 0, 0);
      }
    }
  }

  ghost predicate InSome(gs: seq<Graph>, w: Word) {
    exists i :: 0 <= i < |gs| && gs[i].Language(w)
  }

  lemma InSomeStep(gs: seq<Graph>, g: Graph, w: Word)
    ensures InSome(gs + [g], w) <==> InSome(gs, w) || g.Language(w)
  {
    if i :| 0 <= i < |gs| && gs[i].Language(w) {
      assert (gs + [g])[i] == gs[i];
    }
    assert (gs + [g])[|gs|] == g;
  }

  /** The union under way: a fresh initial state that nothing leads back to. */
  ghost predicate Uniting(b: Automaton, gs: seq<Graph>)
    reads b
  {
    && b.Valid() && b.nextId > 0 && 0 in b.trans && NoWayBack(b.Snapshot()) && !b.deterministic
    && forall w :: b.Snapshot().Language(w) <==> InSome(gs, w)
  }

  method StartUnion() returns (b: Automaton)
    ensures fresh(b) && Uniting(b, [])
  {
    b := new Automaton();
    b.deterministic := false;
    forall w ensures !b.Snapshot().Language(w) {
      NoTransitionsNoWords(b.Snapshot(), w);
    }
  }

  /** One more automaton of the list, unless it is empty. */
  method AddToUnion(b: Automaton, aa: Automaton, ghost gs: seq<Graph>)
    requires aa.Valid() && b != aa && Uniting(b, gs)
    modifies b
    ensures Uniting(b, gs + [aa.Snapshot()])
  {
    ghost var g1, g2, d := b.Snapshot(), aa.Snapshot(), b.nextId;
    var empty := IsEmpty(aa);
    if !empty {
      Link(b, {0}, aa, true);
      OneMoreOfUnion(g1, g2, d, b.Snapshot());
    }
    forall w ensures b.Snapshot().Language(w) <==> InSome(gs + [g2], w) {
      InSomeStep(gs, g2, w);
    }
  }

  /** The union of a list of automata: a fresh initial state with an epsilon transition to each of them. */
  method UnionAll(list: seq<Automaton>) returns (b: Automaton)
    requires AllValid(list)
    ensures fresh(b) && b.Valid() && !b.deterministic
    ensures forall w :: b.Snapshot().Language(w) <==> InSome(Snapshots(list), w)
  {
    ghost var gs := Snapshots(list);
    b := StartUnion();
    for i := 0 to |list|
      invariant fresh(b) && Uniting(b, gs[..i])
    {
      assert gs[..i + 1] == gs[..i] + [list[i].Snapshot()];
      AddToUnion(b, list[i], gs[..i]);
    }
    assert gs[..|list|] == gs;
  }
}
