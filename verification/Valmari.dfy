/** Valmari's minimization: blocks of states and cords of transitions, refined in turn. */
module Valmari {
  import opened Languages
  import opened Automata
  import opened Minimization
  import BasicOperations
  import opened Cords
  import opened Runs
  import opened Partitions
  import opened Splitting

  // ----- the transition list of an automaton -----

  ghost predicate Listed(net: Net, order: seq<State>, i: nat, e: Transition)
    requires net.Valid() && net.n == |order|
  {
    exists t :: 0 <= t < net.Count() && net.tails[t] == i && net.labels[t] == (e.min, e.max)
        && order[net.heads[t]] == e.to
  }

  /** The net lists the transitions of the ordered states. */
  ghost predicate Represents(g: Graph, order: seq<State>, net: Net) {
    && net.Valid() && net.n == |order| && g.Valid() && g.Deterministic()
    && (forall i {:trigger order[i]} :: 0 <= i < |order| ==> order[i] in g.trans)
    && (forall i, j {:trigger order[i], order[j]} :: 0 <= i < j < |order| ==> order[i] != order[j])
    && (forall t {:trigger net.tails[t]} :: 0 <= t < net.Count() ==>
         Edge(net, order, t) in g.trans[order[net.tails[t]]])
    && (forall i: nat, e {:trigger Listed(net, order, i, e)} :: i < |order| && e in g.trans[order[i]] ==>
         Listed(net, order, i, e))
  }

  ghost function Edge(net: Net, order: seq<State>, t: nat): Transition
    requires net.Valid() && net.n == |order| && t < net.Count()
  {
    Transition(net.labels[t].0, net.labels[t].1, order[net.heads[t]])
  }

  /** Two labels are the same interval or have no character in common. */
  ghost predicate Atomic(net: Net)
    requires net.Valid()
  {
    forall t, u {:trigger net.labels[t], net.labels[u]} ::
        0 <= t < net.Count() && 0 <= u < net.Count() && net.labels[t] != net.labels[u] ==>
      net.labels[t].1 < net.labels[u].0 || net.labels[u].1 < net.labels[t].0
  }

  // ----- what is never separated -----

  /** e numbers the states such that states with the same number accept alike and leave by the same labels to the same
      numbers. */
  ghost predicate StableFor(g: Graph, order: seq<State>, net: Net, e: seq<nat>) {
    && net.Valid() && |e| == net.n == |order| && Stable(net, e)
    && forall s, u {:trigger e[s], e[u]} :: 0 <= s < |e| && 0 <= u < |e| && e[s] == e[u] ==>
         (order[s] in g.accept <==> order[u] in g.accept)
  }

  /** What e does not separate, block does not separate. */
  ghost predicate Finer(e: seq<nat>, block: seq<nat>) {
    |e| == |block| && forall s, u {:trigger e[s], e[u]} {:trigger block[s], block[u]} ::
      0 <= s < |e| && 0 <= u < |e| && e[s] == e[u] ==> block[s] == block[u]
  }

  ghost predicate FinerCords(net: Net, e: seq<nat>, cord: seq<nat>)
    requires net.Valid() && |e| == net.n && |cord| == net.Count()
  {
    forall t, u {:trigger cord[t], cord[u]} ::
        0 <= t < |cord| && 0 <= u < |cord| && net.labels[t] == net.labels[u] && e[net.heads[t]] == e[net.heads[u]] ==>
      cord[t] == cord[u]
  }

  /** block is coarser than every stable partition. */
  ghost predicate Coarsest(g: Graph, order: seq<State>, net: Net, block: seq<nat>) {
    forall e {:trigger StableFor(g, order, net, e)} :: StableFor(g, order, net, e) ==> Finer(e, block)
  }

  lemma AlsoLeaves(net: Net, e: seq<nat>, cord: seq<nat>, s: nat, u: nat, c: nat)
    requires net.Valid() && |e| == net.n && Stable(net, e) && |cord| == net.Count() && FinerCords(net, e, cord)
    requires s < net.n && u < net.n && e[s] == e[u] && Leaves(net, cord, s, c)
    ensures Leaves(net, cord, u, c)
  {
    var t :| 0 <= t < net.Count() && net.tails[t] == s && cord[t] == c;
    assert Answers(net, e, t, u);
    var t' :| 0 <= t' < net.Count() && net.tails[t'] == u && net.labels[t'] == net.labels[t]
      && e[net.heads[t']] == e[net.heads[t]];
    assert cord[t'] == cord[t];
  }

  lemma BlocksStayCoarse(net: Net, e: seq<nat>, block: seq<nat>, cord: seq<nat>, c: nat, block2: seq<nat>)
    requires Numbered(net, block, cord) && Finer(e, block) && Stable(net, e) && FinerCords(net, e, cord)
        && BlocksSplit(net, block, cord, c, block2)
    ensures Finer(e, block2)
  {
    forall s, u | 0 <= s < |e| && 0 <= u < |e| && e[s] == e[u] ensures block2[s] == block2[u] {
      if Leaves(net, cord, s, c) {
        AlsoLeaves(net, e, cord, s, u, c);
      }
      if Leaves(net, cord, u, c) {
        AlsoLeaves(net, e, cord, u, s, c);
      }
      assert block[s] == block[u];
    }
  }

  lemma CordsStayCoarse(net: Net, e: seq<nat>, block: seq<nat>, cord: seq<nat>, count: nat, b: nat, cord2: seq<nat>)
    requires Numbered(net, block, cord) && Finer(e, block) && FinerCords(net, e, cord)
        && CordsSplit(net, block, cord, count, b, cord2)
    ensures FinerCords(net, e, cord2)
  {
    forall t, u | 0 <= t < |cord| && 0 <= u < |cord| && net.labels[t] == net.labels[u]
        && e[net.heads[t]] == e[net.heads[u]] ensures cord2[t] == cord2[u]
    {
      assert cord[t] == cord[u];
      assert block[net.heads[t]] == block[net.heads[u]];
    }
  }

  // ----- right languages as a stable partition -----

  ghost predicate SoundBlocks(g: Graph, order: seq<State>, block: seq<nat>)
    requires |block| == |order|
  {
    forall s: nat, u: nat {:trigger block[s], block[u]} ::
        s < |order| && u < |order| && g.SameRight(order[s], order[u]) ==> block[s] == block[u]
  }

  /** States with the same right language have moves on the same characters. */
  ghost predicate DefinedAlike(g: Graph, states: set<State>) {
    forall q, p, c: Char {:trigger g.Succ(q, c), g.Succ(p, c)} ::
        q in states && p in states && g.SameRight(q, p) && g.Succ(q, c) != {} ==> g.Succ(p, c) != {}
  }

  /** The first state from position k on that accepts and reads the same words as state s. */
  ghost function FirstAlike(g: Graph, order: seq<State>, s: nat, k: nat): (r: nat)
    requires k <= s < |order|
    ensures k <= r <= s && Alike(g, order[s], order[r]) && forall j {:trigger order[j]} :: k <= j < r ==>
        !Alike(g, order[s], order[j])
    decreases s - k
  {
    if k == s || Alike(g, order[s], order[k]) then k else FirstAlike(g, order, s, k + 1)
  }

  ghost function AlikeClasses(g: Graph, order: seq<State>): (e: seq<nat>)
    ensures |e| == |order|
  {
    seq(|order|, s requires 0 <= s < |order| => FirstAlike(g, order, s, 0))
  }

  lemma ClassesAreAlike(g: Graph, order: seq<State>, s: nat, u: nat)
    requires s < |order| && u < |order|
    ensures AlikeClasses(g, order)[s] == AlikeClasses(g, order)[u] <==> Alike(g, order[s], order[u])
  {
    var r, r' := FirstAlike(g, order, s, 0), FirstAlike(g, order, u, 0);
    if Alike(g, order[s], order[u]) {
      assert Alike(g, order[s], order[r']) && Alike(g, order[u], order[r]);
      assert !(r < r') && !(r' < r);
    }
  }

  /** States that accept and read the same words are a class of a stable partition. */
  lemma ClassesAreStable(g: Graph, order: seq<State>, net: Net)
    requires Represents(g, order, net) && Atomic(net)
    ensures StableFor(g, order, net, AlikeClasses(g, order))
  {
    var e := AlikeClasses(g, order);
    forall t, s: nat | 0 <= t < net.Count() && s < net.n && e[net.tails[t]] == e[s] ensures Answers(net, e, t, s) {
      ClassesAreAlike(g, order, net.tails[t], s);
      var u := SameLabel(g, order, net, t, s);
      ClassesAreAlike(g, order, net.heads[u], net.heads[t]);
    }
    forall s, u | 0 <= s < |e| && 0 <= u < |e| && e[s] == e[u] ensures order[s] in g.accept <==> order[u] in g.accept {
      ClassesAreAlike(g, order, s, u);
      assert g.Accepts(order[s], []) <==> g.Accepts(order[u], []);
    }
  }

  lemma SameLabel(g: Graph, order: seq<State>, net: Net, t: nat, s: nat) returns (u: nat)
    requires Represents(g, order, net) && Atomic(net)
    requires t < net.Count() && s < net.n && Alike(g, order[net.tails[t]], order[s])
    ensures u < net.Count() && net.tails[u] == s && net.labels[u] == net.labels[t]
        && Alike(g, order[net.heads[u]], order[net.heads[t]])
  {
    var q, p, d := order[net.tails[t]], order[s], Edge(net, order, t);
    var c := d.min;
    assert d in g.trans[q] && d.Covers(c) && d.to in g.Succ(q, c);
    AlikeMoves(g, q, p, c, d.to);
    var r :| r in g.Succ(p, c);
    var d' :| d' in g.Out(p) && d'.Covers(c) && d'.to == r;
    u := TransitionOf(g, order, net, s, d');
    AlikeStep(g, q, p, c, d.to, d'.to);
  }

  lemma AlikeMoves(g: Graph, q: State, p: State, c: Char, q': State)
    requires g.Valid() && Alike(g, q, p) && q' in g.Succ(q, c)
    ensures g.Succ(p, c) != {}
  {
    assert [c][1..] == [] && q' in Running(g).Succ(q, c) && Running(g).Accepts(q', []);
    assert Running(g).Accepts(q, [c]);
    assert Running(g).Accepts(p, [c]);
    var r :| r in Running(g).Succ(p, c);
    assert r in g.Succ(p, c);
  }

  lemma AlikeStep(g: Graph, q: State, p: State, c: Char, q': State, p': State)
    requires g.Deterministic() && Alike(g, q, p) && q' in g.Succ(q, c) && p' in g.Succ(p, c)
    ensures Alike(g, q', p')
  {
    SameRightStep(g, q, p, c, q', p');
    assert Running(g).Deterministic();
    assert q' in Running(g).Succ(q, c) && p' in Running(g).Succ(p, c);
    SameRightStep(Running(g), q, p, c, q', p');
  }

  /** Where states with the same right language are defined alike, they also read the same words. */
  lemma {:induction false} DefinedAlikeReads(g: Graph, states: set<State>, q: State, p: State, w: Word)
    requires g.Valid() && g.Deterministic() && Closed(g, states) && DefinedAlike(g, states)
    requires q in states && p in states && g.SameRight(q, p) && Running(g).Accepts(q, w)
    ensures Running(g).Accepts(p, w)
    decreases |w|
  {
    if w != [] {
      var q' :| q' in Running(g).Succ(q, w[0]) && Running(g).Accepts(q', w[1..]);
      assert q' in g.Succ(q, w[0]);
      var p' :| p' in g.Succ(p, w[0]);
      SameRightStep(g, q, p, w[0], q', p');
      DefinedAlikeReads(g, states, q', p', w[1..]);
      assert p' in Running(g).Succ(p, w[0]);
    }
  }

  lemma DefinedAlikeIsAlike(g: Graph, states: set<State>, q: State, p: State)
    requires g.Valid() && g.Deterministic() && Closed(g, states) && DefinedAlike(g, states)
    requires q in states && p in states && g.SameRight(q, p)
    ensures Alike(g, q, p)
  {
    forall w ensures Running(g).Accepts(q, w) <==> Running(g).Accepts(p, w) {
      if Running(g).Accepts(q, w) {
        DefinedAlikeReads(g, states, q, p, w);
      }
      if Running(g).Accepts(p, w) {
        DefinedAlikeReads(g, states, p, q, w);
      }
    }
  }

  /** The position of a transition on the list. */
  lemma TransitionOf(g: Graph, order: seq<State>, net: Net, s: nat, d: Transition) returns (t: nat)
    requires Represents(g, order, net) && s < net.n && d in g.Out(order[s])
    ensures t < net.Count() && net.tails[t] == s && net.labels[t] == (d.min, d.max) && order[net.heads[t]] == d.to
  {
    assert Listed(net, order, s, d);
    t :| 0 <= t < net.Count() && net.tails[t] == s && net.labels[t] == (d.min, d.max) && order[net.heads[t]] == d.to;
  }

  /** Blocks that hold all states with the same right language, and are stable, define those alike. */
  lemma StableIsDefinedAlike(g: Graph, order: seq<State>, net: Net, block: seq<nat>)
    requires Represents(g, order, net) && |block| == net.n && Stable(net, block) && SoundBlocks(g, order, block)
    ensures DefinedAlike(g, set q | q in order)
  {
    forall q, p, c: Char | q in order && p in order && g.SameRight(q, p) && g.Succ(q, c) != {}
        ensures g.Succ(p, c) != {}
    {
      var s :| 0 <= s < |order| && order[s] == q;
      var u :| 0 <= u < |order| && order[u] == p;
      var r :| r in g.Succ(q, c);
      var d :| d in g.Out(q) && d.Covers(c) && d.to == r;
      var t := TransitionOf(g, order, net, s, d);
      assert block[s] == block[u];
      assert Answers(net, block, t, u);
      var t' :| 0 <= t' < net.Count() && net.tails[t'] == u && net.labels[t'] == net.labels[t];
      assert Edge(net, order, t') in g.trans[p] && Edge(net, order, t').Covers(c);
      assert Edge(net, order, t').to in g.Succ(p, c);
    }
  }

  // ----- the quotient by a stable partition -----

  /** h has a state for each block, with the transitions and the acceptance of its representative. */
  ghost predicate IsFolded(g: Graph, order: seq<State>, net: Net, block: seq<nat>, rep: seq<nat>, h: Graph) {
    && Represents(g, order, net) && |block| == net.n && Stable(net, block)
    && (forall s {:trigger block[s]} :: 0 <= s < |block| ==> block[s] < |rep|)
    && (forall b {:trigger rep[b]} :: 0 <= b < |rep| ==> rep[b] < net.n && block[rep[b]] == b)
    && (forall s, u {:trigger block[s], block[u]} :: 0 <= s < |block| && 0 <= u < |block| && block[s] == block[u] ==>
         (order[s] in g.accept <==> order[u] in g.accept))
    && (forall b: nat :: b in h.trans <==> b < |rep|)
    && (forall b {:trigger rep[b]} :: 0 <= b < |rep| ==> (b in h.accept <==> order[rep[b]] in g.accept))
    && (forall b {:trigger h.trans[b]} :: 0 <= b < |rep| ==> FoldedRow(net, block, rep[b], h.trans[b]))
    && h.accept <= h.trans.Keys && h.initial < |rep|
  }

  /** The transitions of state s, leading to blocks. */
  ghost predicate FoldedRow(net: Net, block: seq<nat>, s: nat, row: set<Transition>)
    requires net.Valid() && |block| == net.n
  {
    && (forall t {:trigger net.tails[t]} :: 0 <= t < net.Count() && net.tails[t] == s ==> Folded(net, block, t) in row)
    && (forall e {:trigger e in row} :: e in row ==>
         exists t :: 0 <= t < net.Count() && net.tails[t] == s && e == Folded(net, block, t))
  }

  function Folded(net: Net, block: seq<nat>, t: nat): Transition
    requires t < |net.labels| && t < |net.heads| && net.heads[t] < |block|
  {
    Transition(net.labels[t].0, net.labels[t].1, block[net.heads[t]])
  }

  /** Every transition of a state is answered by one of its representative. */
  lemma FoldedAnswer(g: Graph, order: seq<State>, net: Net, block: seq<nat>, rep: seq<nat>, h: Graph, t: nat)
      returns (e: Transition)
    requires IsFolded(g, order, net, block, rep, h) && t < net.Count()
    ensures e in h.Out(block[net.tails[t]]) && (e.min, e.max) == net.labels[t] && e.to == block[net.heads[t]]
  {
    var b := block[net.tails[t]];
    assert block[rep[b]] == b;
    assert Answers(net, block, t, rep[b]);
    var u :| 0 <= u < net.Count() && net.tails[u] == rep[b] && net.labels[u] == net.labels[t]
      && block[net.heads[u]] == block[net.heads[t]];
    e := Folded(net, block, u);
    assert FoldedRow(net, block, rep[b], h.trans[b]);
  }

  lemma FoldedStep(g: Graph, order: seq<State>, net: Net, block: seq<nat>, rep: seq<nat>, h: Graph, s: nat, c: Char,
      p: nat)
    requires IsFolded(g, order, net, block, rep, h) && s < net.n && p < net.n && order[p] in g.Succ(order[s], c)
    ensures block[p] in h.Succ(block[s], c)
  {
    var e :| e in g.Out(order[s]) && e.Covers(c) && e.to == order[p];
    var t := TransitionOf(g, order, net, s, e);
    var d := FoldedAnswer(g, order, net, block, rep, h, t);
  }

  lemma UnfoldedStep(g: Graph, order: seq<State>, net: Net, block: seq<nat>, rep: seq<nat>, h: Graph, s: nat, c: Char,
      b': State) returns (p: nat)
    requires IsFolded(g, order, net, block, rep, h) && s < net.n && b' in h.Succ(block[s], c)
    ensures p < net.n && order[p] in g.Succ(order[s], c) && block[p] == b'
  {
    var b := block[s];
    var e :| e in h.trans[b] && e.Covers(c) && e.to == b';
    var t :| 0 <= t < net.Count() && net.tails[t] == rep[b] && e == Folded(net, block, t);
    assert Answers(net, block, t, s);
    var u :| 0 <= u < net.Count() && net.tails[u] == s && net.labels[u] == net.labels[t]
      && block[net.heads[u]] == block[net.heads[t]];
    p := net.heads[u];
    assert Edge(net, order, u) in g.trans[order[s]] && Edge(net, order, u).Covers(c);
  }

  /** The state of a block has the right language of the states in it. */
  lemma {:induction false} FoldedAccepts(g: Graph, order: seq<State>, net: Net, block: seq<nat>, rep: seq<nat>,
      h: Graph, s: nat, w: Word)
    requires IsFolded(g, order, net, block, rep, h) && s < net.n
    ensures h.Accepts(block[s], w) <==> g.Accepts(order[s], w)
    decreases |w|
  {
    if w == [] {
      assert block[rep[block[s]]] == block[s];
    } else {
      if p' :| p' in g.Succ(order[s], w[0]) && g.Accepts(p', w[1..]) {
        var e :| e in g.Out(order[s]) && e.Covers(w[0]) && e.to == p';
        assert Listed(net, order, s, e);
        var t :| 0 <= t < net.Count() && net.tails[t] == s && net.labels[t] == (e.min, e.max)
          && order[net.heads[t]] == e.to;
        FoldedStep(g, order, net, block, rep, h, s, w[0], net.heads[t]);
        FoldedAccepts(g, order, net, block, rep, h, net.heads[t], w[1..]);
      }
      if b :| b in h.Succ(block[s], w[0]) && h.Accepts(b, w[1..]) {
        var p := UnfoldedStep(g, order, net, block, rep, h, s, w[0], b);
        FoldedAccepts(g, order, net, block, rep, h, p, w[1..]);
      }
    }
  }

  lemma SameTailDiffers(g: Graph, order: seq<State>, net: Net, t: nat, u: nat)
    requires Represents(g, order, net) && t < net.Count() && u < net.Count() && t != u && net.tails[t] == net.tails[u]
    ensures net.labels[t].1 < net.labels[u].0 || net.labels[u].1 < net.labels[t].0
  {
    assert Edge(net, order, t) in g.trans[order[net.tails[t]]] && Edge(net, order, u) in g.trans[order[net.tails[t]]];
    assert net.labels[t] != net.labels[u];
  }

  lemma FoldedEdge(g: Graph, order: seq<State>, net: Net, block: seq<nat>, rep: seq<nat>, h: Graph, b: State,
      e: Transition) returns (t: nat)
    requires IsFolded(g, order, net, block, rep, h) && b in h.trans && e in h.trans[b]
    ensures t < net.Count() && net.tails[t] == rep[b] && e == Folded(net, block, t) && e.min <= e.max && e.to in h.trans
  {
    assert FoldedRow(net, block, rep[b], h.trans[b]);
    t :| 0 <= t < net.Count() && net.tails[t] == rep[b] && e == Folded(net, block, t);
    assert Edge(net, order, t) in g.trans[order[rep[b]]];
  }

  lemma FoldedIsValid(g: Graph, order: seq<State>, net: Net, block: seq<nat>, rep: seq<nat>, h: Graph)
    requires IsFolded(g, order, net, block, rep, h)
    ensures h.Valid() && h.Deterministic()
  {
    forall b, e | b in h.trans && e in h.trans[b] ensures e.min <= e.max && e.to in h.trans {
      var t := FoldedEdge(g, order, net, block, rep, h, b, e);
    }
    forall b, e, f | b in h.trans && e in h.trans[b] && f in h.trans[b] && e != f
        ensures e.max < f.min || f.max < e.min
    {
      var t := FoldedEdge(g, order, net, block, rep, h, b, e);
      var u := FoldedEdge(g, order, net, block, rep, h, b, f);
      SameTailDiffers(g, order, net, t, u);
    }
  }

  /** With sound blocks, different states of the quotient have different right languages. */
  /** The folded automaton can be read as the folding of what can be read. */
  lemma FoldedRuns(g: Graph, order: seq<State>, net: Net, block: seq<nat>, rep: seq<nat>, h: Graph)
    requires IsFolded(g, order, net, block, rep, h)
    ensures IsFolded(Running(g), order, net, block, rep, Running(h))
  {
    assert Represents(Running(g), order, net) by {
      RunningIsValid(g);
      forall t | 0 <= t < net.Count() ensures Edge(net, order, t) in Running(g).trans[order[net.tails[t]]] {}
    }
  }

  /** No two states of the folded automaton accept and read the same words. */
  lemma FoldedIsDistinct(g: Graph, order: seq<State>, net: Net, block: seq<nat>, rep: seq<nat>, h: Graph)
    requires IsFolded(g, order, net, block, rep, h) && Coarsest(g, order, net, block) && Atomic(net)
    ensures Distinct(h)
  {
    FoldedIsValid(g, order, net, block, rep, h);
    assert Closed(h, h.trans.Keys);
    FoldedRuns(g, order, net, block, rep, h);
    ClassesAreStable(g, order, net);
    forall b: State, d: State | h.Reachable(b) && h.Reachable(d) && Alike(h, b, d) ensures b == d {
      forall w ensures g.Accepts(order[rep[b]], w) <==> g.Accepts(order[rep[d]], w) {
        FoldedAccepts(g, order, net, block, rep, h, rep[b], w);
        FoldedAccepts(g, order, net, block, rep, h, rep[d], w);
      }
      forall w ensures Running(g).Accepts(order[rep[b]], w) <==> Running(g).Accepts(order[rep[d]], w) {
        FoldedAccepts(Running(g), order, net, block, rep, Running(h), rep[b], w);
        FoldedAccepts(Running(g), order, net, block, rep, Running(h), rep[d], w);
      }
      ClassesAreAlike(g, order, rep[b], rep[d]);
      assert block[rep[b]] == b && block[rep[d]] == d;
    }
  }

  lemma FoldedIsMinimal(g: Graph, order: seq<State>, net: Net, block: seq<nat>, rep: seq<nat>, h: Graph)
    requires IsFolded(g, order, net, block, rep, h) && SoundBlocks(g, order, block)
    ensures h.Minimal()
  {
    FoldedIsValid(g, order, net, block, rep, h);
    assert Closed(h, h.trans.Keys);
    forall b: State, d: State | h.Reachable(b) && h.Reachable(d) && h.SameRight(b, d) ensures b == d {
      forall w ensures g.Accepts(order[rep[b]], w) <==> g.Accepts(order[rep[d]], w) {
        FoldedAccepts(g, order, net, block, rep, h, rep[b], w);
        FoldedAccepts(g, order, net, block, rep, h, rep[d], w);
      }
      assert block[rep[b]] == b && block[rep[d]] == d;
    }
  }

  // ----- splitting the blocks by a cord -----

  /** What the two partitions are partitions of. */
  ghost predicate Over(net: Net, blocks: Shape, cords: Shape) {
    && net.Valid() && blocks.Fits() && cords.Fits() && blocks.Size() == net.n && cords.Size() == net.Count()
  }

  /** The elements of a cord, by position. */
  lemma InStretch(p: Shape, c: nat, t: nat)
    requires p.Fits() && c < p.setCount && t < p.Size()
    ensures p.setNo[t] == c <==> exists j :: p.first[c] <= j < p.past[c] && p.elements[j] == t
  {
    assert p.elements[p.locations[t]] == t;
  }

  /** The tails of cord c up to position i are marked in b, and nothing else; b has the sets of p. */
  ghost predicate TailsMarked(net: Net, p: Shape, b: Shape, q: Shape, c: nat, i: nat) {
    && Over(net, b, q) && b.setNo == p.setNo && b.setCount == p.setCount && b.first == p.first && b.past == p.past
    && c < q.setCount && q.first[c] <= i <= q.past[c]
    && forall s: nat {:trigger b.IsMarked(s)} :: s < net.n ==> (b.IsMarked(s) <==> MarkedTail(net, q, c, i, s))
  }

  method MarkTail(blocks: Partition, net: Net, t: nat, ghost p: Shape, ghost q: Shape, c: nat, ghost i: nat)
    requires blocks.Valid() && TailsMarked(net, p, blocks.View(), q, c, i) && i < q.past[c] && t == q.elements[i]
        && t < net.Count() && OneLabel(net, q.setNo)
    modifies blocks.repr
    ensures blocks.Valid() && TailsMarked(net, p, blocks.View(), q, c, i + 1)
  {
    TailIsNew(net, q, c, i);
    blocks.Mark(net.tails[t]);
  }

  lemma NoTailsMarked(net: Net, p: Shape, q: Shape, c: nat)
    requires Over(net, p, q) && p.touched == [] && c < q.setCount
    ensures TailsMarked(net, p, p, q, c, q.first[c])
  {
    NothingMarked(p);
  }

  /** Marks the tails of a cord. */
  method MarkTails(blocks: Partition, cords: Partition, net: Net, c: nat, ghost p: Shape, ghost q: Shape)
    requires blocks.Valid() && cords.Valid() && blocks.repr !! cords.repr && p == blocks.View() && q == cords.View()
    requires Over(net, p, q) && p.touched == [] && c < cords.setCount && OneLabel(net, q.setNo)
    modifies blocks.repr
    ensures blocks.Valid() && cords.Valid() && cords.View() == q && TailsMarked(net, p, blocks.View(), q, c, q.past[c])
  {
    NoTailsMarked(net, p, q, c);
    var i := cords.first[c];
    while i < cords.past[c]
      invariant cords.Valid() && cords.View() == q
      invariant blocks.Valid() && TailsMarked(net, p, blocks.View(), q, c, i)
      decreases q.past[c] - i
    {
      assert cords.past[c] == q.past[c];
      assert q.elements[i] < q.Size();
      var t := cords.elements[i];
      assert t == q.elements[i];
      MarkTail(blocks, net, t, p, q, c, i);
      i := i + 1;
    }
    assert cords.past[c] == q.past[c];
  }

  /** s is the tail of one of the transitions of cord c up to position i. */
  ghost predicate MarkedTail(net: Net, q: Shape, c: nat, i: nat, s: nat)
    requires net.Valid() && q.Fits() && q.Size() == net.Count() && c < q.setCount && i <= q.past[c]
  {
    exists j :: q.first[c] <= j < i && net.tails[q.elements[j]] == s
  }

  lemma TailIsNew(net: Net, q: Shape, c: nat, i: nat)
    requires net.Valid() && q.Fits() && q.Size() == net.Count() && c < q.setCount && q.first[c] <= i < q.past[c]
        && OneLabel(net, q.setNo)
    ensures !MarkedTail(net, q, c, i, net.tails[q.elements[i]])
  {
    forall j | q.first[c] <= j < i ensures net.tails[q.elements[j]] != net.tails[q.elements[i]] {
      assert q.setNo[q.elements[j]] == c && q.setNo[q.elements[i]] == c;
      assert q.locations[q.elements[j]] == j && q.locations[q.elements[i]] == i;
    }
  }

  lemma AllTailsMarked(net: Net, q: Shape, c: nat, s: nat)
    requires net.Valid() && q.Fits() && q.Size() == net.Count() && c < q.setCount
    ensures MarkedTail(net, q, c, q.past[c], s) <==> Leaves(net, q.setNo, s, c)
  {
    if MarkedTail(net, q, c, q.past[c], s) {
      var j :| q.first[c] <= j < q.past[c] && net.tails[q.elements[j]] == s;
      assert q.setNo[q.elements[j]] == c;
    }
    if Leaves(net, q.setNo, s, c) {
      var t :| 0 <= t < net.Count() && net.tails[t] == s && q.setNo[t] == c;
      InStretch(q, c, t);
    }
  }

  /** The element at a position is still one of the set that had the position. */
  ghost predicate InPlace(p: Shape, b: Shape) {
    && p.Fits() && b.Fits() && p.Size() == b.Size()
    && forall i {:trigger b.elements[i]} :: 0 <= i < p.Size() ==> p.setNo[b.elements[i]] == p.setNo[p.elements[i]]
  }

  lemma TailsMarkedSplit(net: Net, p: Shape, b: Shape, q: Shape, c: nat, b': Shape)
    requires c < q.setCount && q.Fits() && q.first[c] < q.past[c] && TailsMarked(net, p, b, q, c, q.past[c]) && p.Fits()
        && p.Size() == net.n && Splits(b, b')
    ensures Over(net, b', q) && b'.touched == [] && BlocksSplit(net, p.setNo, q.setNo, c, b'.setNo) && InPlace(p, b')
  {
    forall i | 0 <= i < p.Size() ensures p.setNo[b'.elements[i]] == p.setNo[p.elements[i]] {
      var s := p.setNo[p.elements[i]];
      assert p.locations[p.elements[i]] == i;
      assert p.first[s] <= i < p.past[s];
      assert b.first[s] <= i < b.past[s];
      assert b.setNo[b.elements[i]] == s;
    }
    forall s: nat | s < net.n ensures b.IsMarked(s) <==> Leaves(net, q.setNo, s, c) {
      AllTailsMarked(net, q, c, s);
    }
  }

  method SplitBlocks(blocks: Partition, cords: Partition, net: Net, c: nat, ghost p: Shape, ghost q: Shape)
    requires blocks.Valid() && cords.Valid() && blocks.repr !! cords.repr && p == blocks.View() && q == cords.View()
    requires Over(net, p, q) && p.touched == [] && c < cords.setCount && OneLabel(net, q.setNo)
    modifies blocks.repr
    ensures blocks.Valid() && cords.Valid() && cords.View() == q
    ensures Over(net, blocks.View(), q) && blocks.View().touched == []
    ensures BlocksSplit(net, p.setNo, q.setNo, c, blocks.View().setNo) && InPlace(p, blocks.View())
  {
    MarkTails(blocks, cords, net, c, p, q);
    ghost var b := blocks.View();
    assert q.first[c] < q.past[c];
    blocks.Split();
    TailsMarkedSplit(net, p, b, q, c, blocks.View());
  }

  // ----- splitting the cords by a block -----

  /** t leads to an element of block b in front of position i, or to the element at i and stands in front of j in its
      list. */
  ghost predicate MarkedHead(net: Net, p: Shape, b: nat, i: nat, j: nat, t: nat)
    requires net.Valid() && p.Fits() && p.Size() == net.n && b < p.setCount && t < net.Count()
  {
    p.first[b] <= p.locations[net.heads[t]] < i || (p.locations[net.heads[t]] == i && Place(net.heads, t) < j)
  }

  ghost predicate HeadsMarked(net: Net, p: Shape, q: Shape, r: Shape, b: nat, i: nat, j: nat) {
    && Over(net, p, r) && r.setNo == q.setNo && r.setCount == q.setCount && b < p.setCount
         && p.first[b] <= i <= p.past[b]
    && forall t: nat {:trigger r.IsMarked(t)} :: t < net.Count() ==> (r.IsMarked(t) <==> MarkedHead(net, p, b, i, j, t))
  }

  method MarkHead(cords: Partition, net: Net, t: nat, ghost p: Shape, ghost q: Shape, ghost b: nat, ghost i: nat,
      ghost j: nat)
    requires cords.Valid() && HeadsMarked(net, p, q, cords.View(), b, i, j) && i < p.past[b]
    requires t < net.Count() && net.heads[t] == p.elements[i] && Place(net.heads, t) == j
    modifies cords.repr
    ensures cords.Valid() && HeadsMarked(net, p, q, cords.View(), b, i, j + 1)
  {
    assert p.locations[p.elements[i]] == i;
    cords.Mark(t);
    forall u: nat | u < net.Count()
        ensures MarkedHead(net, p, b, i, j + 1, u) <==> u == t || MarkedHead(net, p, b, i, j, u)
    {
      if u != t && p.locations[net.heads[u]] == i {
        assert Place(net.heads, u) != j by {
          if u < t {
            PlacesDiffer(net.heads, u, t);
          } else {
            PlacesDiffer(net.heads, t, u);
          }
        }
      }
    }
  }

  /** Marks the transitions into the element at position i. */
  method MarkInto(cords: Partition, net: Net, adjacent: seq<nat>, offset: seq<nat>, e: nat, ghost p: Shape,
      ghost q: Shape, ghost b: nat, ghost i: nat)
    requires cords.Valid() && IsAdjacent(adjacent, offset, net.heads, net.n)
    requires HeadsMarked(net, p, q, cords.View(), b, i, 0) && i < p.past[b] && e == p.elements[i] && e < net.n
    modifies cords.repr
    ensures cords.Valid() && HeadsMarked(net, p, q, cords.View(), b, i + 1, 0)
  {
    var j := offset[e];
    NoneInFront(net, adjacent, offset, p, q, cords.View(), b, i, e);
    while j < offset[e + 1]
      invariant cords.Valid() && offset[e] <= j && HeadsMarked(net, p, q, cords.View(), b, i, j)
      invariant j <= offset[e + 1] || j == offset[e]
    {
      AdjacentEntry(adjacent, offset, net.heads, net.n, e, j);
      MarkHead(cords, net, adjacent[j], p, q, b, i, j);
      j := j + 1;
    }
    AllInFront(net, adjacent, offset, p, q, cords.View(), b, i, e, j);
  }

  lemma PlaceInList(net: Net, adjacent: seq<nat>, offset: seq<nat>, t: nat)
    requires net.Valid() && IsAdjacent(adjacent, offset, net.heads, net.n) && t < net.Count()
    ensures net.heads[t] < net.n && offset[net.heads[t]] <= Place(net.heads, t) < offset[net.heads[t] + 1]
  {
    PlaceIsInside(net.heads, net.n, t);
  }

  lemma NoneInFront(net: Net, adjacent: seq<nat>, offset: seq<nat>, p: Shape, q: Shape, r: Shape, b: nat, i: nat,
      e: nat)
    requires IsAdjacent(adjacent, offset, net.heads, net.n) && HeadsMarked(net, p, q, r, b, i, 0) && i < p.past[b]
        && e == p.elements[i] && e < net.n
    ensures HeadsMarked(net, p, q, r, b, i, offset[e])
  {
    forall t: nat | t < net.Count() ensures MarkedHead(net, p, b, i, 0, t) <==> MarkedHead(net, p, b, i, offset[e], t) {
      PlaceInList(net, adjacent, offset, t);
      assert p.elements[p.locations[net.heads[t]]] == net.heads[t];
    }
  }

  lemma AllInFront(net: Net, adjacent: seq<nat>, offset: seq<nat>, p: Shape, q: Shape, r: Shape, b: nat, i: nat, e: nat,
      j: nat)
    requires IsAdjacent(adjacent, offset, net.heads, net.n) && HeadsMarked(net, p, q, r, b, i, j) && i < p.past[b]
        && e == p.elements[i] && e < net.n
    requires j >= offset[e + 1]
    ensures HeadsMarked(net, p, q, r, b, i + 1, 0)
  {
    forall t: nat | t < net.Count() ensures MarkedHead(net, p, b, i, j, t) <==> MarkedHead(net, p, b, i + 1, 0, t) {
      PlaceInList(net, adjacent, offset, t);
      assert p.elements[p.locations[net.heads[t]]] == net.heads[t];
    }
  }

  lemma NoHeadsMarked(net: Net, p: Shape, q: Shape, b: nat)
    requires Over(net, p, q) && q.touched == [] && b < p.setCount
    ensures HeadsMarked(net, p, q, q, b, p.first[b], 0)
  {
    NothingMarked(q);
  }

  method MarkHeads(cords: Partition, blocks: Partition, net: Net, adjacent: seq<nat>, offset: seq<nat>, b: nat,
      ghost p: Shape, ghost q: Shape)
    requires blocks.Valid() && cords.Valid() && blocks.repr !! cords.repr && p == blocks.View() && q == cords.View()
    requires Over(net, p, q) && q.touched == [] && b < blocks.setCount && IsAdjacent(adjacent, offset, net.heads, net.n)
    modifies cords.repr
    ensures blocks.Valid() && cords.Valid() && blocks.View() == p
        && HeadsMarked(net, p, q, cords.View(), b, p.past[b], 0)
  {
    NoHeadsMarked(net, p, q, b);
    assert p.first[b] < p.past[b];
    var i := blocks.first[b];
    while i < blocks.past[b]
      invariant blocks.Valid() && blocks.View() == p
      invariant cords.Valid() && p.first[b] <= i <= p.past[b] && HeadsMarked(net, p, q, cords.View(), b, i, 0)
      decreases p.past[b] - i
    {
      assert blocks.past[b] == p.past[b];
      assert p.elements[i] < p.Size();
      var e := blocks.elements[i];
      assert e == p.elements[i];
      MarkInto(cords, net, adjacent, offset, e, p, q, b, i);
      i := i + 1;
    }
    assert blocks.past[b] == p.past[b];
  }

  lemma HeadsMarkedSplit(net: Net, p: Shape, q: Shape, r: Shape, b: nat, r': Shape)
    requires b < p.setCount && p.Fits() && HeadsMarked(net, p, q, r, b, p.past[b], 0) && q.Fits()
        && q.Size() == net.Count() && Splits(r, r')
    ensures Over(net, p, r') && r'.touched == [] && CordsSplit(net, p.setNo, q.setNo, q.setCount, b, r'.setNo)
        && q.setCount <= r'.setCount
  {
    forall t: nat | t < net.Count() ensures r.IsMarked(t) <==> p.setNo[net.heads[t]] == b {
      StretchOf(p, b, net.heads[t]);
    }
    forall t | 0 <= t < net.Count()
        ensures q.setNo[t] < q.setCount && (r'.setNo[t] == q.setNo[t] || r'.setNo[t] >= q.setCount)
    {
      assert r.setNo[t] == q.setNo[t];
    }
  }

  method SplitCords(cords: Partition, blocks: Partition, net: Net, adjacent: seq<nat>, offset: seq<nat>, b: nat,
      ghost p: Shape, ghost q: Shape)
    requires blocks.Valid() && cords.Valid() && blocks.repr !! cords.repr && p == blocks.View() && q == cords.View()
    requires Over(net, p, q) && q.touched == [] && b < blocks.setCount && IsAdjacent(adjacent, offset, net.heads, net.n)
    modifies cords.repr
    ensures blocks.Valid() && cords.Valid() && blocks.View() == p
    ensures Over(net, p, cords.View()) && cords.View().touched == [] && q.setCount <= cords.setCount
    ensures CordsSplit(net, p.setNo, q.setNo, q.setCount, b, cords.View().setNo)
  {
    MarkHeads(cords, blocks, net, adjacent, offset, b, p, q);
    ghost var r := cords.View();
    cords.Split();
    HeadsMarkedSplit(net, p, q, r, b, cords.View());
  }

  // ----- the alternating loop -----

  /** A block holds accepting states only or none. */
  ghost predicate Pure(g: Graph, order: seq<State>, p: Shape)
    requires p.Fits() && p.Size() == |order|
  {
    forall s, u {:trigger p.setNo[s], p.setNo[u]} ::
        0 <= s < |order| && 0 <= u < |order| && p.setNo[s] == p.setNo[u] ==>
        (order[s] in g.accept <==> order[u] in g.accept)
  }

  /** The accepting states stand in the first m positions. */
  ghost predicate Front(g: Graph, order: seq<State>, p: Shape, m: nat)
    requires p.Fits() && p.Size() == |order|
  {
    forall i {:trigger p.elements[i]} :: 0 <= i < |order| ==> (i < m <==> order[p.elements[i]] in g.accept)
  }

  /** What the loop keeps, the cords from c on being pending. */
  ghost predicate Refining(g: Graph, order: seq<State>, net: Net, p: Shape, q: Shape, c: nat, m: nat) {
    && Represents(g, order, net) && Over(net, p, q) && p.touched == [] && q.touched == [] && c <= q.setCount
    && PendingSuffice(net, p.setNo, q.setNo, c) && OneLabel(net, q.setNo)
    && Pure(g, order, p) && Front(g, order, p, m)
    && AllFiner(g, order, net, p.setNo, q.setNo)
  }

  /** Neither the blocks nor the cords separate what some stable partition does not separate. */
  ghost predicate AllFiner(g: Graph, order: seq<State>, net: Net, block: seq<nat>, cord: seq<nat>)
    requires Numbered(net, block, cord)
  {
    forall e {:trigger StableFor(g, order, net, e)} :: StableFor(g, order, net, e) ==>
        Finer(e, block) && FinerCords(net, e, cord)
  }

  /** After a turn every cord leads into one block. */
  ghost predicate Refined(g: Graph, order: seq<State>, net: Net, p: Shape, q: Shape, c: nat, m: nat) {
    Refining(g, order, net, p, q, c, m) && OneHead(net, p.setNo, q.setNo)
  }

  lemma BlocksStep(g: Graph, order: seq<State>, net: Net, p: Shape, q: Shape, c: nat, m: nat, p': Shape)
    requires Refining(g, order, net, p, q, c, m) && c < q.setCount
    requires Over(net, p', q) && p'.touched == [] && BlocksSplit(net, p.setNo, q.setNo, c, p'.setNo) && InPlace(p, p')
    ensures Refining(g, order, net, p', q, c + 1, m)
  {
    BlocksSplitSuffice(net, p.setNo, q.setNo, c, p'.setNo);
    forall e | StableFor(g, order, net, e) ensures Finer(e, p'.setNo) {
      BlocksStayCoarse(net, e, p.setNo, q.setNo, c, p'.setNo);
    }
    forall i | 0 <= i < |order| ensures i < m <==> order[p'.elements[i]] in g.accept {
      var _ := p.elements[i];
      assert p.setNo[p'.elements[i]] == p.setNo[p.elements[i]];
    }
    forall s, u | 0 <= s < |order| && 0 <= u < |order| && p'.setNo[s] == p'.setNo[u]
        ensures order[s] in g.accept <==> order[u] in g.accept
    {
      assert p.setNo[s] == p.setNo[u];
    }
  }

  lemma CordsStep(g: Graph, order: seq<State>, net: Net, p: Shape, q: Shape, c: nat, m: nat, b: nat, q': Shape)
    requires Refining(g, order, net, p, q, c, m) && Over(net, p, q') && q'.touched == [] && q.setCount <= q'.setCount
    requires CordsSplit(net, p.setNo, q.setNo, q.setCount, b, q'.setNo)
    ensures Refining(g, order, net, p, q', c, m)
  {
    CordsSplitSuffice(net, p.setNo, q.setNo, q.setCount, b, q'.setNo, c);
    forall e | StableFor(g, order, net, e) ensures FinerCords(net, e, q'.setNo) {
      CordsStayCoarse(net, e, p.setNo, q.setNo, q.setCount, b, q'.setNo);
    }
  }

  method SplitByCord(blocks: Partition, cords: Partition, net: Net, c: nat, ghost g: Graph, ghost order: seq<State>,
      ghost m: nat)
    requires blocks.Valid() && cords.Valid() && blocks.repr !! cords.repr && c < cords.setCount
    requires Refining(g, order, net, blocks.View(), cords.View(), c, m)
    modifies blocks.repr
    ensures blocks.Valid() && cords.Valid() && cords.View() == old(cords.View())
    ensures Refining(g, order, net, blocks.View(), cords.View(), c + 1, m)
  {
    ghost var p, q := blocks.View(), cords.View();
    SplitBlocks(blocks, cords, net, c, p, q);
    BlocksStep(g, order, net, p, q, c, m, blocks.View());
  }

  /** One turn: the blocks are split by cord c, then the cords by every block. */
  method Turn(blocks: Partition, cords: Partition, net: Net, adjacent: seq<nat>, offset: seq<nat>, c: nat,
      ghost g: Graph, ghost order: seq<State>, ghost m: nat)
    requires blocks.Valid() && cords.Valid() && blocks.repr !! cords.repr && c < cords.setCount
        && IsAdjacent(adjacent, offset, net.heads, net.n)
    requires Refining(g, order, net, blocks.View(), cords.View(), c, m)
    modifies blocks.repr, cords.repr
    ensures blocks.Valid() && cords.Valid() && Refined(g, order, net, blocks.View(), cords.View(), c + 1, m)
  {
    SplitByCord(blocks, cords, net, c, g, order, m);
    SplitAllCords(blocks, cords, net, adjacent, offset, c + 1, g, order, m);
  }

  method SplitAllCords(blocks: Partition, cords: Partition, net: Net, adjacent: seq<nat>, offset: seq<nat>,
      ghost c: nat, ghost g: Graph, ghost order: seq<State>, ghost m: nat)
    requires blocks.Valid() && cords.Valid() && blocks.repr !! cords.repr
        && IsAdjacent(adjacent, offset, net.heads, net.n)
    requires Refining(g, order, net, blocks.View(), cords.View(), c, m)
    modifies cords.repr
    ensures blocks.Valid() && cords.Valid() && cords.setCount >= old(cords.setCount)
        && blocks.View() == old(blocks.View())
    ensures Refined(g, order, net, blocks.View(), cords.View(), c, m)
  {
    ghost var p := blocks.View();
    var b := 1;
    while b < blocks.setCount
      invariant blocks.Valid() && blocks.View() == p && cords.Valid() && cords.setCount >= old(cords.setCount)
      invariant 1 <= b && Refining(g, order, net, p, cords.View(), c, m)
          && HeadsAgreeOn(net, p.setNo, cords.View().setNo, b)
      decreases p.setCount - b
    {
      ghost var q := cords.View();
      SplitCords(cords, blocks, net, adjacent, offset, b, p, q);
      CordsStep(g, order, net, p, q, c, m, b, cords.View());
      HeadsAgreeOnOneMore(net, p.setNo, q.setNo, q.setCount, b, cords.View().setNo);
      b := b + 1;
    }
    AllBlocksAgree(net, p.setNo, cords.View().setNo, b);
  }

  /** The alternating loop ends in the coarsest stable partition. */
  method Refine(blocks: Partition, cords: Partition, net: Net, adjacent: seq<nat>, offset: seq<nat>, ghost g: Graph,
      ghost order: seq<State>, ghost m: nat)
    requires blocks.Valid() && cords.Valid() && blocks.repr !! cords.repr
        && IsAdjacent(adjacent, offset, net.heads, net.n)
    requires Refining(g, order, net, blocks.View(), cords.View(), 0, m)
    modifies blocks.repr, cords.repr
    ensures blocks.Valid() && cords.Valid() && blocks.View().Size() == net.n
    ensures StableFor(g, order, net, blocks.View().setNo) && Coarsest(g, order, net, blocks.View().setNo)
    ensures Pure(g, order, blocks.View()) && Front(g, order, blocks.View(), m)
  {
    var c := 0;
    while c < cords.setCount
      invariant blocks.Valid() && cords.Valid() && c <= cords.setCount
      invariant Refining(g, order, net, blocks.View(), cords.View(), c, m)
      invariant c > 0 ==> Refined(g, order, net, blocks.View(), cords.View(), c, m)
      decreases net.Count() - c
    {
      assert cords.View().setCount <= net.Count();
      Turn(blocks, cords, net, adjacent, offset, c, g, order, m);
      c := c + 1;
    }
    NothingLeftPending(g, order, net, blocks.View(), cords.View(), c, m);
    EndOfRefining(g, order, net, blocks.View(), cords.View(), c, m);
  }

  lemma NothingLeftPending(g: Graph, order: seq<State>, net: Net, p: Shape, q: Shape, c: nat, m: nat)
    requires Refining(g, order, net, p, q, c, m) && c == q.setCount && (c > 0 ==> Refined(g, order, net, p, q, c, m))
    ensures Stable(net, p.setNo)
  {
    if c > 0 {
      Cords.NothingPending(net, p.setNo, q.setNo, c);
    } else if q.Size() > 0 {
      SomeSet(q);
    }
  }

  lemma EndOfRefining(g: Graph, order: seq<State>, net: Net, p: Shape, q: Shape, c: nat, m: nat)
    requires Refining(g, order, net, p, q, c, m) && Stable(net, p.setNo)
    ensures StableFor(g, order, net, p.setNo) && Coarsest(g, order, net, p.setNo)
  {
  }

  lemma SomeSet(q: Shape)
    requires q.Fits() && q.Size() > 0
    ensures q.setCount > 0
  {
    assert q.setNo[0] < q.setCount;
  }

  // ----- the initial partitions -----

  /** Marks the accepting states and splits: they stand in front. */
  method InitialBlocks(n: nat, accepted: set<nat>) returns (blocks: Partition)
    requires n > 0 && forall s :: s in accepted ==> s < n
    ensures fresh(blocks.repr) && blocks.Valid() && blocks.View().touched == [] && blocks.View().Size() == n
    ensures forall s, u {:trigger blocks.View().setNo[s], blocks.View().setNo[u]} :: 0 <= s < n && 0 <= u < n ==>
      (blocks.View().setNo[s] == blocks.View().setNo[u] <==> (s in accepted <==> u in accepted))
    ensures forall i {:trigger blocks.View().elements[i]} :: 0 <= i < n ==>
        (i < |accepted| <==> blocks.View().elements[i] in accepted)
  {
    blocks := NewPartition(n);
    StartMarked(n);
    MarkAll(blocks, n, accepted);
    ghost var p := blocks.View();
    MarkedInFront(n, p, accepted);
    blocks.Split();
    InitialSplit(n, p, accepted, blocks.View());
  }

  lemma StartMarked(n: nat)
    requires n > 0
    ensures MarkedAs(n, InitialShape(n), {})
  {
    InitialFits(n);
    NothingMarked(InitialShape(n));
  }

  method MarkAll(blocks: Partition, n: nat, accepted: set<nat>)
    requires blocks.Valid() && MarkedAs(n, blocks.View(), {}) && forall s :: s in accepted ==> s < n
    modifies blocks.repr
    ensures blocks.Valid() && MarkedAs(n, blocks.View(), accepted)
  {
    var todo := accepted;
    ghost var done: set<nat> := {};
    while todo != {}
      invariant done + todo == accepted && done !! todo && blocks.Valid() && MarkedAs(n, blocks.View(), done)
    {
      var s :| s in todo;
      assert s in accepted;
      MarkOne(blocks, n, s, done);
      MoveOver(done, todo, s);
      todo, done := todo - {s}, done + {s};
    }
    assert done == accepted;
  }

  lemma MoveOver(done: set<nat>, todo: set<nat>, s: nat)
    requires s in todo && done !! todo
    ensures (done + {s}) + (todo - {s}) == done + todo && (done + {s}) !! (todo - {s})
  {
  }

  method MarkOne(blocks: Partition, n: nat, s: nat, ghost done: set<nat>)
    requires blocks.Valid() && MarkedAs(n, blocks.View(), done) && s < n && s !in done
    modifies blocks.repr
    ensures blocks.Valid() && MarkedAs(n, blocks.View(), done + {s})
  {
    ghost var p := blocks.View();
    blocks.Mark(s);
    OneMoreMarked(n, p, done, s, blocks.View());
  }

  lemma InitialSplit(n: nat, p: Shape, s: set<nat>, p': Shape)
    requires MarkedAs(n, p, s) && Splits(p, p')
    ensures forall e: nat, f: nat {:trigger p'.setNo[e], p'.setNo[f]} :: e < n && f < n ==>
        (p'.setNo[e] == p'.setNo[f] <==> (e in s <==> f in s))
  {
    forall e: nat, f: nat | e < n && f < n ensures p'.setNo[e] == p'.setNo[f] <==> (e in s <==> f in s) {
      assert p.IsMarked(e) <==> e in s;
      assert p.IsMarked(f) <==> f in s;
    }
  }

  /** One set, in which exactly the given elements are marked. */
  ghost predicate MarkedAs(n: nat, p: Shape, s: set<nat>) {
    && p.Fits() && p.Size() == n && n > 0 && p.setCount == 1 && p.first[0] == 0 && p.marked[0] == |s|
    && (forall e {:trigger p.setNo[e]} :: 0 <= e < n ==> p.setNo[e] == 0)
    && forall e: nat {:trigger p.IsMarked(e)} :: e < n ==> (p.IsMarked(e) <==> e in s)
  }

  lemma OneMoreMarked(n: nat, p: Shape, s: set<nat>, e: nat, p': Shape)
    requires MarkedAs(n, p, s) && e < n && e !in s && p'.Fits() && !p.IsMarked(e) && p.Mark(e) == p'
    requires forall f: nat {:trigger p'.IsMarked(f)} :: f < n ==> (p'.IsMarked(f) <==> f == e || p.IsMarked(f))
    ensures MarkedAs(n, p', s + {e})
  {
  }

  lemma MarkedInFront(n: nat, p: Shape, s: set<nat>)
    requires MarkedAs(n, p, s)
    ensures forall i {:trigger p.elements[i]} :: 0 <= i < n ==> (i < |s| <==> p.elements[i] in s)
  {
    forall i | 0 <= i < n ensures i < |s| <==> p.elements[i] in s {
      assert p.locations[p.elements[i]] == i;
      assert p.IsMarked(p.elements[i]) <==> i < |s|;
    }
  }

  type Label = (Char, Char)

  /** The order of LabelComparator. */
  predicate LabelBefore(a: Label, b: Label) {
    a.0 < b.0 || (a.0 == b.0 && a.1 <= b.1)
  }

  ghost predicate InLabelOrder(order: seq<nat>, labels: seq<Label>) {
    && (forall i {:trigger order[i]} :: 0 <= i < |order| ==> order[i] < |labels|)
    && (forall i, j {:trigger order[i], order[j]} :: 0 <= i < j < |order| ==>
         order[i] != order[j] && LabelBefore(labels[order[i]], labels[order[j]]))
  }

  method SortByLabel(labels: seq<Label>) returns (order: seq<nat>)
    ensures InLabelOrder(order, labels) && |order| == |labels| && forall t: nat {:trigger t in order} ::
        t < |labels| ==> t in order
  {
    order := [];
    for t := 0 to |labels|
      invariant InLabelOrder(order, labels) && |order| == t
      invariant forall u: nat {:trigger u in order} :: u in order <==> u < t
    {
      order := InsertByLabel(t, order, labels);
    }
  }

  function InsertByLabel(t: nat, order: seq<nat>, labels: seq<Label>): (r: seq<nat>)
    requires InLabelOrder(order, labels) && t < |labels| && t !in order
    ensures InLabelOrder(r, labels) && |r| == |order| + 1
    ensures forall u: nat {:trigger u in r} :: u in r <==> u == t || u in order
  {
    if order == [] || LabelBefore(labels[t], labels[order[0]]) then
      [t] + order
    else
      var rest := InsertByLabel(t, order[1..], labels);
      assert forall i {:trigger rest[i]} :: 0 <= i < |rest| ==> rest[i] in rest;
      assert forall u {:trigger u in order[1..]} :: u in order[1..] ==>
          u != order[0] && LabelBefore(labels[order[0]], labels[u]);
      [order[0]] + rest
  }

  /** The first i transitions, in the order of their labels, have their cords; cord s is still growing. */
  ghost predicate Grouping(order: seq<nat>, labels: seq<Label>, i: nat, s: nat, p: Shape) {
    && InLabelOrder(order, labels) && |order| == |labels| && p.Lengths() && p.Size() == |order| && p.touched == []
    && i <= |order| && (i == 0 ==> s == 0) && (i > 0 ==> s < i)
    && (forall j {:trigger order[j]} :: 0 <= j < i ==>
         p.elements[j] == order[j] && p.locations[order[j]] == j && CordAt(p, i, s, j, p.setNo[order[j]]))
    && (forall r {:trigger p.past[r]} :: 0 <= r < s ==> p.first[r] < p.past[r] <= i)
    && (forall r {:trigger p.marked[r]} :: 0 <= r <= s && r < |order| ==> p.marked[r] == 0)
    && (|order| > 0 ==> p.first[s] <= i && (i > 0 ==> p.first[s] < i))
    && (forall r, j {:trigger p.first[r], order[j]} :: 0 <= r <= s && r < |order| && p.first[r] <= j < i && (r < s ==>
         j < p.past[r]) ==> p.setNo[order[j]] == r)
    && (forall j, k {:trigger order[j], order[k]} :: 0 <= j < i && 0 <= k < i ==>
         (p.setNo[order[j]] == p.setNo[order[k]] <==> labels[order[j]] == labels[order[k]]))
  }

  /** Position j lies in the stretch of cord r. */
  ghost predicate CordAt(p: Shape, i: nat, s: nat, j: nat, r: nat)
    requires p.Lengths()
  {
    r <= s && r < |p.first| && p.first[r] <= j && (if r < s then j < p.past[r] else j < i)
  }

  /** What one turn of the loop writes for position i: a new cord when the label is a new one. */
  function Grouped(order: seq<nat>, i: nat, s: nat, fresh': bool, p: Shape): Shape
    requires p.Lengths() && i < |order| == p.Size() && order[i] < p.Size() && s < p.Size()
        && (fresh' ==> s + 1 < p.Size())
  {
    var s' := if fresh' then s + 1 else s;
    Shape(p.elements[i := order[i]], p.locations[order[i] := i], p.setNo[order[i] := s'], if fresh'
      then p.first[s + 1 := i] else p.first,
          if fresh' then p.past[s := i] else p.past, if fresh' then p.marked[s + 1 := 0] else p.marked, p.touched, s')
  }

  lemma LastLabel(order: seq<nat>, labels: seq<Label>, i: nat, j: nat)
    requires InLabelOrder(order, labels) && 0 < i < |order| && j < i
    ensures labels[order[i]] != labels[order[i - 1]] ==> labels[order[j]] != labels[order[i]]
    ensures labels[order[i]] == labels[order[i - 1]] ==> (labels[order[j]] == labels[order[i]] <==>
        labels[order[j]] == labels[order[i - 1]])
  {
    assert j < i - 1 ==> LabelBefore(labels[order[j]], labels[order[i - 1]]);
    assert LabelBefore(labels[order[i - 1]], labels[order[i]]);
  }

  lemma GroupingStep(order: seq<nat>, labels: seq<Label>, i: nat, s: nat, p: Shape)
    requires Grouping(order, labels, i, s, p) && i < |order| && s < p.Size()
    requires i > 0 && labels[order[i]] != labels[order[i - 1]]
    ensures s + 1 < p.Size() && Grouping(order, labels, i + 1, s + 1, Grouped(order, i, s, true, p))
  {
    var p' := Grouped(order, i, s, true, p);
    forall j | 0 <= j < i + 1 ensures p'.elements[j] == order[j] && p'.locations[order[j]] == j
        && CordAt(p', i + 1, s + 1, j, p'.setNo[order[j]])
    {
      assert j < i ==> order[j] != order[i] && CordAt(p, i, s, j, p.setNo[order[j]]);
    }
    forall j, k | 0 <= j < i + 1 && 0 <= k < i + 1 ensures p'.setNo[order[j]] == p'.setNo[order[k]] <==>
        labels[order[j]] == labels[order[k]]
    {
      if j < i {
        LastLabel(order, labels, i, j);
        assert order[j] != order[i] && CordAt(p, i, s, j, p.setNo[order[j]]);
      }
      if k < i {
        LastLabel(order, labels, i, k);
        assert order[k] != order[i] && CordAt(p, i, s, k, p.setNo[order[k]]);
      }
    }
    forall r, j | 0 <= r <= s + 1 && r < |order| && p'.first[r] <= j < i + 1 && (r < s + 1 ==> j < p'.past[r])
        ensures p'.setNo[order[j]] == r
    {
      assert j < i ==> order[j] != order[i];
      var _ := p.first[r];
    }
  }

  lemma GroupingSame(order: seq<nat>, labels: seq<Label>, i: nat, s: nat, p: Shape)
    requires Grouping(order, labels, i, s, p) && i < |order| && s < p.Size()
    requires i > 0 ==> labels[order[i]] == labels[order[i - 1]]
    ensures Grouping(order, labels, i + 1, s, Grouped(order, i, s, false, p))
  {
    var p' := Grouped(order, i, s, false, p);
    forall j | 0 <= j < i + 1 ensures p'.elements[j] == order[j] && p'.locations[order[j]] == j
        && CordAt(p', i + 1, s, j, p'.setNo[order[j]])
    {
      assert j < i ==> order[j] != order[i] && CordAt(p, i, s, j, p.setNo[order[j]]);
    }
    forall j | 0 <= j < i ensures p'.setNo[order[j]] == s <==> labels[order[j]] == labels[order[i]] {
      LastLabel(order, labels, i, j);
      assert order[j] != order[i];
      assert p.setNo[order[i - 1]] == s;
      assert p.setNo[order[j]] == p.setNo[order[i - 1]] <==> labels[order[j]] == labels[order[i - 1]];
    }
    forall j, k | 0 <= j < i + 1 && 0 <= k < i + 1 ensures p'.setNo[order[j]] == p'.setNo[order[k]] <==>
        labels[order[j]] == labels[order[k]]
    {
      assert j < i ==> order[j] != order[i];
      assert k < i ==> order[k] != order[i];
    }
    forall r, j | 0 <= r <= s && r < |order| && p'.first[r] <= j < i + 1 && (r < s ==> j < p'.past[r])
        ensures p'.setNo[order[j]] == r
    {
      assert j < i ==> order[j] != order[i];
    }
  }

  /** The last cord closed, the partition is complete. */
  lemma GroupingEnds(order: seq<nat>, labels: seq<Label>, s: nat, p: Shape, p': Shape)
    requires |order| > 0 && Grouping(order, labels, |order|, s, p)
        && p' == p.(past := p.past[s := |order|], setCount := s + 1)
    requires forall t: nat {:trigger t in order} :: t < |labels| ==> t in order
    ensures p'.Fits() && p'.Size() == |labels|
    ensures forall t, u {:trigger p'.setNo[t], p'.setNo[u]} :: 0 <= t < |labels| && 0 <= u < |labels| ==>
        (p'.setNo[t] == p'.setNo[u] <==> labels[t] == labels[u])
  {
    forall e: nat | e < p'.Size() ensures p'.locations[e] < p'.Size() && p'.elements[p'.locations[e]] == e
        && order[p'.locations[e]] == e
    {
      assert e in order;
      var j :| 0 <= j < |order| && order[j] == e;
    }
    assert p'.Permutes() by {
      forall i | 0 <= i < p'.Size() ensures p'.elements[i] < p'.Size() && p'.locations[p'.elements[i]] == i {
        var _ := order[i];
      }
    }
    forall e: nat | e < p'.Size() ensures p'.setNo[e] < p'.setCount
        && p'.first[p'.setNo[e]] <= p'.locations[e] < p'.past[p'.setNo[e]]
    {
      assert CordAt(p, |order|, s, p'.locations[e], p.setNo[order[p'.locations[e]]]);
    }
    forall r, i | 0 <= r < p'.setCount && p'.first[r] <= i < p'.past[r] ensures p'.setNo[p'.elements[i]] == r {
      var _ := order[i];
      var _ := p.first[r];
    }
    forall t, u | 0 <= t < |labels| && 0 <= u < |labels|
        ensures p'.setNo[t] == p'.setNo[u] <==> labels[t] == labels[u]
    {
      assert order[p'.locations[t]] == t && order[p'.locations[u]] == u;
    }
  }

  /** Transition order[i] gets position i in the open cord, or in a new one. */
  method PutAt(cords: Partition, order: seq<nat>, i: nat, t: nat, isNew: bool)
    requires cords.Separate() && cords.View().Lengths() && i < |order| == cords.elements.Length
        && t == order[i] < cords.elements.Length
    requires cords.setCount < cords.elements.Length && (isNew ==> cords.setCount + 1 < cords.elements.Length)
    modifies cords.repr
    ensures cords.Separate() && cords.View() == Grouped(order, i, old(cords.setCount), isNew, old(cords.View()))
  {
    cords.elements[i] := t;
    if isNew {
      cords.past[cords.setCount] := i;
      cords.setCount := cords.setCount + 1;
      cords.first[cords.setCount] := i;
      cords.markedElementCount[cords.setCount] := 0;
    }
    cords.setNo[t] := cords.setCount;
    cords.locations[t] := i;
  }

  /** Unmarked, with one set for each label. */
  ghost predicate ByLabel(labels: seq<Label>, p: Shape) {
    && p.Fits() && p.touched == [] && p.Size() == |labels|
    && forall t, u {:trigger p.setNo[t], p.setNo[u]} :: 0 <= t < |labels| && 0 <= u < |labels| ==>
         (p.setNo[t] == p.setNo[u] <==> labels[t] == labels[u])
  }

  lemma NoLabels(labels: seq<Label>, p: Shape)
    requires |labels| == 0 && p.Fits() && p.touched == [] && p.Size() == |labels|
    ensures ByLabel(labels, p)
  {
  }

  /** One cord for each label. */
  method InitialCords(labels: seq<Label>) returns (cords: Partition)
    ensures fresh(cords.repr) && cords.Valid() && ByLabel(labels, cords.View())
  {
    cords := NewPartition(|labels|);
    if |labels| > 0 {
      FillCords(cords, labels);
    } else {
      NoLabels(labels, cords.View());
    }
  }

  method FillCords(cords: Partition, labels: seq<Label>)
    requires |labels| > 0 && cords.Separate() && cords.View() == InitialShape(|labels|)
    modifies cords.repr
    ensures cords.Valid() && ByLabel(labels, cords.View())
  {
    var order := SortByLabel(labels);
    StartGrouping(cords, order, labels);
    GroupAll(cords, order, labels);
    CloseLast(cords, order, labels);
  }

  method StartGrouping(cords: Partition, order: seq<nat>, labels: seq<Label>)
    requires cords.Separate() && cords.View() == InitialShape(|labels|) && InLabelOrder(order, labels)
        && |order| == |labels| > 0
    modifies cords.repr
    ensures cords.Separate() && cords.setCount == 0 && Grouping(order, labels, 0, 0, cords.View())
  {
    cords.setCount := 0;
    GroupingStarts(order, labels);
    assert cords.View() == InitialShape(|labels|).(setCount := 0);
  }

  /** The loop over the transitions in the order of their labels. */
  method GroupAll(cords: Partition, order: seq<nat>, labels: seq<Label>)
    requires |order| > 0 && cords.Separate() && Grouping(order, labels, 0, 0, cords.View()) && cords.setCount == 0
    modifies cords.repr
    ensures cords.Separate() && Grouping(order, labels, |order|, cords.setCount, cords.View())
        && cords.setCount < |labels|
  {
    for i := 0 to |order|
      invariant cords.Separate() && Grouping(order, labels, i, cords.setCount, cords.View())
          && cords.setCount < |labels|
    {
      GroupOne(cords, order, labels, i);
    }
  }

  method GroupOne(cords: Partition, order: seq<nat>, labels: seq<Label>, i: nat)
    requires cords.Separate() && Grouping(order, labels, i, cords.setCount, cords.View()) && i < |order|
        && cords.setCount < |labels|
    modifies cords.repr
    ensures cords.Separate() && Grouping(order, labels, i + 1, cords.setCount, cords.View())
        && cords.setCount < |labels|
  {
    ghost var p, s := cords.View(), cords.setCount;
    if i > 0 && labels[order[i]] != labels[order[i - 1]] {
      GroupingStep(order, labels, i, s, p);
      PutAt(cords, order, i, order[i], true);
    } else {
      GroupingSame(order, labels, i, s, p);
      PutAt(cords, order, i, order[i], false);
    }
  }

  lemma GroupingStarts(order: seq<nat>, labels: seq<Label>)
    requires InLabelOrder(order, labels) && |order| == |labels| > 0
    ensures Grouping(order, labels, 0, 0, InitialShape(|labels|).(setCount := 0))
  {
  }

  method CloseLast(cords: Partition, order: seq<nat>, labels: seq<Label>)
    requires |order| > 0 && cords.Separate() && Grouping(order, labels, |order|, cords.setCount, cords.View())
        && cords.setCount < |labels|
    requires forall t: nat {:trigger t in order} :: t < |labels| ==> t in order
    modifies cords.repr
    ensures cords.Valid() && ByLabel(labels, cords.View())
  {
    ghost var p, s := cords.View(), cords.setCount;
    cords.past[cords.setCount] := |order|;
    cords.setCount := cords.setCount + 1;
    GroupingEnds(order, labels, s, p, cords.View());
  }

  // ----- listing the transitions -----

  /** The transitions of the first i states are listed, and of state i those that are not in todo. */
  ghost predicate Listing(g: Graph, order: seq<State>, net: Net, i: nat, todo: set<Transition>) {
    && net.n == |order| && |net.labels| == |net.tails| == |net.heads| && i <= |order|
    && (forall t {:trigger net.tails[t]} {:trigger net.heads[t]} :: 0 <= t < |net.tails| ==>
         net.tails[t] <= i && net.tails[t] < |order| && net.heads[t] < |order| && ListedEdge(g, order, net, t, i, todo))
    && (forall t, u {:trigger net.tails[t], net.tails[u]} :: 0 <= t < u < |net.tails| ==>
         net.tails[t] != net.tails[u] || net.labels[t] != net.labels[u] || net.heads[t] != net.heads[u])
    && (forall h: nat, e {:trigger ListedAt(net, order, h, e)} ::
         h < |order| && order[h] in g.trans && e in g.trans[order[h]] && (h < i || (h == i && e !in todo)) ==>
         ListedAt(net, order, h, e))
  }

  ghost predicate ListedEdge(g: Graph, order: seq<State>, net: Net, t: nat, i: nat, todo: set<Transition>)
    requires t < |net.tails| == |net.labels| == |net.heads| && net.tails[t] < |order| && net.heads[t] < |order|
  {
    var e := Transition(net.labels[t].0, net.labels[t].1, order[net.heads[t]]);
    order[net.tails[t]] in g.trans && e in g.trans[order[net.tails[t]]] && (net.tails[t] == i ==> e !in todo)
  }

  ghost predicate ListedAt(net: Net, order: seq<State>, h: nat, e: Transition) {
    exists t :: 0 <= t < |net.tails| && t < |net.labels| && t < |net.heads| && net.tails[t] == h
        && net.labels[t] == (e.min, e.max) && net.heads[t] < |order| && order[net.heads[t]] == e.to
  }

  function Append(net: Net, i: nat, e: Transition, head: nat): Net {
    Net(net.n, net.tails + [i], net.labels + [(e.min, e.max)], net.heads + [head])
  }

  lemma ListOneMore(g: Graph, order: seq<State>, number: map<State, nat>, net: Net, i: nat, todo: set<Transition>,
      e: Transition)
    requires Listing(g, order, net, i, todo) && i < |order| && order[i] in g.trans && e in todo
        && todo <= g.trans[order[i]]
    requires e.to in number && number[e.to] < |order| && order[number[e.to]] == e.to
    ensures Listing(g, order, Append(net, i, e, number[e.to]), i, todo - {e})
  {
    var net' := Append(net, i, e, number[e.to]);
    forall t | 0 <= t < |net'.tails| ensures net'.tails[t] <= i && net'.tails[t] < |order| && net'.heads[t] < |order|
        && ListedEdge(g, order, net', t, i, todo - {e})
    {
      if t < |net.tails| {
        var _ := net.tails[t];
        assert ListedEdge(g, order, net, t, i, todo);
      }
    }
    forall h: nat, d | h < |order| && order[h] in g.trans && d in g.trans[order[h]]
        && (h < i || (h == i && d !in todo - {e})) ensures ListedAt(net', order, h, d)
    {
      if h == i && d == e {
        assert net'.tails[|net.tails|] == h && net'.labels[|net.tails|] == (d.min, d.max);
      } else {
        assert ListedAt(net, order, h, d);
        var t :| 0 <= t < |net.tails| && t < |net.labels| && t < |net.heads| && net.tails[t] == h
          && net.labels[t] == (d.min, d.max) && net.heads[t] < |order| && order[net.heads[t]] == d.to;
        assert net'.tails[t] == h && net'.labels[t] == (d.min, d.max) && net'.heads[t] == net.heads[t];
      }
    }
    forall t, u | 0 <= t < u < |net'.tails| ensures net'.tails[t] != net'.tails[u] || net'.labels[t] != net'.labels[u]
        || net'.heads[t] != net'.heads[u]
    {
      var _ := net.tails[t];
      assert ListedEdge(g, order, net, t, i, todo);
    }
  }

  method ListRow(g: Graph, order: seq<State>, number: map<State, nat>, net0: Net, i: nat) returns (net: Net)
    requires i < |order| && order[i] in g.trans && Listing(g, order, net0, i, g.trans[order[i]])
    requires forall e :: e in g.trans[order[i]] ==>
        e.to in number && number[e.to] < |order| && order[number[e.to]] == e.to
    ensures Listing(g, order, net, i, {})
  {
    net := net0;
    var todo := g.trans[order[i]];
    while todo != {}
      invariant todo <= g.trans[order[i]] && Listing(g, order, net, i, todo)
    {
      var e :| e in todo;
      assert e in g.trans[order[i]];
      ListOneMore(g, order, number, net, i, todo, e);
      net := Append(net, i, e, number[e.to]);
      todo := todo - {e};
    }
  }

  lemma NextState(g: Graph, order: seq<State>, net: Net, i: nat, todo: set<Transition>)
    requires Listing(g, order, net, i, {}) && i < |order| && (i + 1 < |order| && order[i + 1] in g.trans ==>
        todo == g.trans[order[i + 1]])
    ensures Listing(g, order, net, i + 1, todo)
  {
    forall t | 0 <= t < |net.tails| ensures net.tails[t] <= i + 1 && net.tails[t] < |order| && net.heads[t] < |order|
        && ListedEdge(g, order, net, t, i + 1, todo)
    {
      assert ListedEdge(g, order, net, t, i, {});
    }
    forall h: nat, e | h < |order| && order[h] in g.trans && e in g.trans[order[h]]
        && (h < i + 1 || (h == i + 1 && e !in todo)) ensures ListedAt(net, order, h, e)
    {
      assert ListedAt(net, order, h, e);
    }
  }

  ghost function RowAt(g: Graph, order: seq<State>, i: nat): set<Transition> {
    if i < |order| && order[i] in g.trans then g.trans[order[i]] else {}
  }

  lemma ListingRepresents(g: Graph, order: seq<State>, net: Net, todo: set<Transition>)
    requires Listing(g, order, net, |order|, todo) && g.Valid() && g.Deterministic()
    requires (forall i {:trigger order[i]} :: 0 <= i < |order| ==> order[i] in g.trans)
        && forall i, j {:trigger order[i], order[j]} :: 0 <= i < j < |order| ==> order[i] != order[j]
    ensures Represents(g, order, net)
  {
    forall t, u | 0 <= t < net.Count() && 0 <= u < net.Count() && net.tails[t] == net.tails[u]
        && net.labels[t] == net.labels[u] ensures t == u
    {
      assert ListedEdge(g, order, net, t, |order|, todo) && ListedEdge(g, order, net, u, |order|, todo);
    }
    forall t | 0 <= t < net.Count()
        ensures net.tails[t] < net.n && net.heads[t] < net.n
        && Transition(net.labels[t].0, net.labels[t].1, order[net.heads[t]]) in g.trans[order[net.tails[t]]]
    {
      assert ListedEdge(g, order, net, t, |order|, todo);
    }
    forall i: nat, e | i < |order| && e in g.trans[order[i]] ensures Listed(net, order, i, e) {
      assert ListedAt(net, order, i, e);
    }
  }

  /** The transitions of all states as one list. */
  method ListTransitions(g: Graph, order: seq<State>, number: map<State, nat>) returns (net: Net)
    requires g.Valid() && g.Deterministic() && Closed(g, number.Keys) && IsOrder(number.Keys, order)
    requires forall q {:trigger number[q]} :: q in number ==> number[q] < |order| && order[number[q]] == q
    ensures Represents(g, order, net)
  {
    net := Net(|order|, [], [], []);
    for i := 0 to |order|
      invariant Listing(g, order, net, i, RowAt(g, order, i))
    {
      assert order[i] in order;
      net := ListRow(g, order, number, net, i);
      NextState(g, order, net, i, RowAt(g, order, i + 1));
    }
    forall i | 0 <= i < |order| ensures order[i] in g.trans {
      assert order[i] in order;
    }
    ListingRepresents(g, order, net, RowAt(g, order, |order|));
  }

  lemma SplitIsAtomic(g: Graph, states: set<State>, points: seq<Char>, h: Graph, order: seq<State>, net: Net)
    requires IsSplit(g, states, points, h) && Represents(h, order, net)
    ensures Atomic(net)
  {
    forall t | 0 <= t < net.Count() ensures Atom(points, net.labels[t].0, net.labels[t].1) {
      var q := order[net.tails[t]];
      assert Edge(net, order, t) in h.trans[q];
      assert SplitsRow(points, g.trans[q], h.trans[q]);
    }
    forall t, u | 0 <= t < net.Count() && 0 <= u < net.Count() && net.labels[t] != net.labels[u]
      ensures net.labels[t].1 < net.labels[u].0 || net.labels[u].1 < net.labels[t].0
    {
      if net.labels[t].0 <= net.labels[u].1 && net.labels[u].0 <= net.labels[t].1 {
        AtomsOverlap(points, net.labels[t].0, net.labels[t].1, net.labels[u].0, net.labels[u].1);
      }
    }
  }

  lemma SplitKeepsLive(g: Graph, states: set<State>, points: seq<Char>, h: Graph)
    requires g.Valid() && g.NoDeadTransitions() && IsSplit(g, states, points, h)
    ensures h.NoDeadTransitions()
  {
    forall q, e | q in h.trans && e in h.trans[q] ensures h.Live(e.to) {
      assert SplitsRow(points, g.trans[q], h.trans[q]);
      assert FromOne(g.trans[q], e);
      var t :| t in g.trans[q] && e.to == t.to && t.min <= e.min && e.max <= t.max;
      assert g.Live(t.to);
      var w :| g.Accepts(t.to, w);
      SplitAccepts(g, states, points, h, t.to, w);
    }
  }

  // ----- the new automaton -----

  /** The first element of each block stands for it. */
  ghost function Rep(p: Shape, b: nat): nat
    requires p.Fits() && b < p.setCount
  {
    p.elements[p.first[b]]
  }

  ghost function Reps(p: Shape): seq<nat>
    requires p.Fits()
  {
    seq(p.setCount, b requires 0 <= b < p.setCount => Rep(p, b))
  }

  lemma RepIsFirst(p: Shape, s: nat)
    requires p.Fits() && s < p.Size()
    ensures p.locations[s] == p.first[p.setNo[s]] <==> s == Rep(p, p.setNo[s])
  {
    assert p.elements[p.locations[s]] == s;
    assert p.locations[p.elements[p.first[p.setNo[s]]]] == p.first[p.setNo[s]];
  }

  lemma RepIsInside(p: Shape, b: nat)
    requires p.Fits() && b < p.setCount
    ensures Rep(p, b) < p.Size() && p.setNo[Rep(p, b)] == b
  {
    assert p.first[b] < p.past[b];
  }

  /** The rows of the new states, from the first transitions on the list. */
  ghost predicate RowsUpTo(net: Net, p: Shape, trans: map<State, set<Transition>>, k: nat)
    requires net.Valid() && p.Fits() && p.Size() == net.n && k <= net.Count()
  {
    && (forall b: nat {:trigger b in trans} :: b in trans <==> b < p.setCount)
    && (forall t {:trigger net.tails[t]} :: 0 <= t < k && net.tails[t] == Rep(p, p.setNo[net.tails[t]]) ==>
         Folded(net, p.setNo, t) in trans[p.setNo[net.tails[t]]])
    && (forall b, e {:trigger e in trans[b]} :: b in trans && e in trans[b] ==> Sourced(net, p, b, e))
  }

  ghost predicate Sourced(net: Net, p: Shape, b: nat, e: Transition)
    requires net.Valid() && p.Fits() && p.Size() == net.n && b < p.setCount
  {
    exists t :: 0 <= t < net.Count() && net.tails[t] == Rep(p, b) && e == Folded(net, p.setNo, t)
  }

  method BuildRows(blocks: Partition, net: Net, ghost p: Shape) returns (trans: map<State, set<Transition>>)
    requires blocks.Valid() && p == blocks.View() && net.Valid() && p.Size() == net.n
    ensures RowsUpTo(net, p, trans, net.Count())
  {
    trans := map[];
    for b := 0 to blocks.setCount
      invariant (forall c: nat {:trigger c in trans} :: c in trans <==> c < b) && forall c :: c in trans ==>
          trans[c] == {}
    {
      trans := trans[b := {}];
    }
    for t := 0 to net.Count()
      invariant RowsUpTo(net, p, trans, t)
    {
      var tail := net.tails[t];
      var b := blocks.setNo[tail];
      assert b == p.setNo[tail] && blocks.locations[tail] == p.locations[tail] && blocks.first[b] == p.first[b];
      RepIsFirst(p, tail);
      if blocks.locations[tail] == blocks.first[b] {
        assert net.heads[t] < net.n;
        var e := Transition(net.labels[t].0, net.labels[t].1, blocks.setNo[net.heads[t]]);
        assert e == Folded(net, p.setNo, t);
        trans := AddRow(net, p, trans, t, b, e);
      } else {
        SkipRow(net, p, trans, t);
      }
    }
  }

  method AddRow(net: Net, ghost p: Shape, trans0: map<State, set<Transition>>, t: nat, b: nat, e: Transition)
      returns (trans: map<State, set<Transition>>)
    requires net.Valid() && p.Fits() && p.Size() == net.n && t < net.Count() && RowsUpTo(net, p, trans0, t)
    requires b == p.setNo[net.tails[t]] && net.tails[t] == Rep(p, b) && e == Folded(net, p.setNo, t)
    ensures RowsUpTo(net, p, trans, t + 1)
  {
    trans := trans0[b := trans0[b] + {e}];
    assert Sourced(net, p, b, e);
    forall c, d | c in trans && d in trans[c] ensures Sourced(net, p, c, d) {
      assert d in trans0[c] || (c == b && d == e);
    }
  }

  lemma SkipRow(net: Net, p: Shape, trans: map<State, set<Transition>>, t: nat)
    requires net.Valid() && p.Fits() && p.Size() == net.n && t < net.Count() && RowsUpTo(net, p, trans, t)
    requires net.tails[t] != Rep(p, p.setNo[net.tails[t]])
    ensures RowsUpTo(net, p, trans, t + 1)
  {
  }

  /** A block accepts when it starts among the accepting states. */
  method BuildAcceptance(blocks: Partition, m: nat, ghost p: Shape) returns (accept: set<State>)
    requires blocks.Valid() && p == blocks.View()
    ensures forall b: nat {:trigger b in accept} :: b in accept <==> b < p.setCount && p.first[b] < m
  {
    accept := {};
    for b := 0 to blocks.setCount
      invariant forall c: nat {:trigger c in accept} :: c in accept <==> c < b && p.first[c] < m
    {
      assert blocks.first[b] == p.first[b];
      if blocks.first[b] < m {
        accept := accept + {b};
      }
    }
  }

  lemma BuiltIsFolded(g: Graph, order: seq<State>, net: Net, p: Shape, m: nat, initial: nat, accept: set<State>,
      trans: map<State, set<Transition>>)
    requires Represents(g, order, net) && p.Fits() && p.Size() == net.n && Stable(net, p.setNo) && Pure(g, order, p)
        && Front(g, order, p, m)
    requires RowsUpTo(net, p, trans, net.Count()) && forall b: nat {:trigger b in accept} :: b in accept <==>
        b < p.setCount && p.first[b] < m
    requires initial < net.n
    ensures IsFolded(g, order, net, p.setNo, Reps(p), Graph(p.setNo[initial], accept, trans))
  {
    var h := Graph(p.setNo[initial], accept, trans);
    forall b | 0 <= b < p.setCount ensures Reps(p)[b] < net.n && p.setNo[Reps(p)[b]] == b && (b in h.accept <==>
        order[Reps(p)[b]] in g.accept)
    {
      RepIsInside(p, b);
    }
    forall b | 0 <= b < p.setCount ensures FoldedRow(net, p.setNo, Reps(p)[b], h.trans[b]) {
      RepIsInside(p, b);
      forall e | e in h.trans[b] ensures exists t ::
          0 <= t < net.Count() && net.tails[t] == Reps(p)[b] && e == Folded(net, p.setNo, t)
      {
        assert Sourced(net, p, b, e);
      }
      forall t | 0 <= t < net.Count() && net.tails[t] == Reps(p)[b] ensures Folded(net, p.setNo, t) in h.trans[b] {
        assert net.tails[t] == Rep(p, p.setNo[net.tails[t]]);
      }
    }
  }

  lemma StartRefining(g: Graph, order: seq<State>, net: Net, accepted: set<nat>, p: Shape, q: Shape)
    requires Represents(g, order, net) && p.Fits() && p.Size() == net.n && p.touched == [] && ByLabel(net.labels, q)
    requires forall i: nat {:trigger i in accepted} :: i in accepted <==> i < |order| && order[i] in g.accept
    requires forall s, u {:trigger p.setNo[s], p.setNo[u]} :: 0 <= s < net.n && 0 <= u < net.n ==>
        (p.setNo[s] == p.setNo[u] <==> (s in accepted <==> u in accepted))
    requires forall i {:trigger p.elements[i]} :: 0 <= i < net.n ==> (i < |accepted| <==> p.elements[i] in accepted)
    ensures Refining(g, order, net, p, q, 0, |accepted|)
  {
    forall e | StableFor(g, order, net, e) ensures Finer(e, p.setNo) {
      forall s, u | 0 <= s < |e| && 0 <= u < |e| && e[s] == e[u] ensures p.setNo[s] == p.setNo[u] {
        assert s in accepted <==> order[s] in g.accept;
        assert u in accepted <==> order[u] in g.accept;
      }
    }
  }

  method AcceptedNumbers(g: Graph, order: seq<State>) returns (accepted: set<nat>)
    ensures forall i: nat {:trigger i in accepted} :: i in accepted <==> i < |order| && order[i] in g.accept
  {
    accepted := {};
    for i := 0 to |order|
      invariant forall j: nat {:trigger j in accepted} :: j in accepted <==> j < i && order[j] in g.accept
    {
      if order[i] in g.accept {
        accepted := accepted + {i};
      }
    }
  }

  method StartPartitions(g: Graph, order: seq<State>, net: Net) returns (blocks: Partition, cords: Partition, m: nat)
    requires Represents(g, order, net) && |order| > 0
    ensures fresh(blocks.repr) && fresh(cords.repr) && blocks.repr !! cords.repr && blocks.Valid() && cords.Valid()
    ensures Refining(g, order, net, blocks.View(), cords.View(), 0, m)
  {
    var accepted := AcceptedNumbers(g, order);
    m := |accepted|;
    blocks := InitialBlocks(net.n, accepted);
    ghost var p := blocks.View();
    cords := InitialCords(net.labels);
    assert blocks.View() == p;
    StartRefining(g, order, net, accepted, p, cords.View());
  }

  method Adjacency(net: Net) returns (adjacent: seq<nat>, offset: seq<nat>)
    requires net.Valid()
    ensures IsAdjacent(adjacent, offset, net.heads, net.n)
  {
    var a, f := new nat[net.Count()], new nat[net.n + 1];
    MakeAdjacent(a, f, net.heads, net.n, net.Count());
    adjacent, offset := a[..], f[..];
  }

  /** The refinement of the listed automaton. */
  method RefineList(g: Graph, order: seq<State>, net: Net) returns (blocks: Partition, m: nat)
    requires Represents(g, order, net) && |order| > 0
    ensures blocks.Valid() && blocks.View().Size() == net.n
    ensures StableFor(g, order, net, blocks.View().setNo) && Coarsest(g, order, net, blocks.View().setNo)
    ensures Pure(g, order, blocks.View()) && Front(g, order, blocks.View(), m)
  {
    var adjacent, offset := Adjacency(net);
    var cords;
    blocks, cords, m := StartPartitions(g, order, net);
    Refine(blocks, cords, net, adjacent, offset, g, order, m);
  }

  /** The quotient of the listed automaton. */
  method Fold(g: Graph, order: seq<State>, net: Net, initial: nat)
      returns (h: Graph, count: nat, ghost block: seq<nat>, ghost rep: seq<nat>)
    requires Represents(g, order, net) && initial < |order|
    ensures IsFolded(g, order, net, block, rep, h) && |rep| == count && h.initial == block[initial]
    ensures StableFor(g, order, net, block) && Coarsest(g, order, net, block)
  {
    var blocks, m := RefineList(g, order, net);
    ghost var p := blocks.View();
    var accept := BuildAcceptance(blocks, m, p);
    var trans := BuildRows(blocks, net, p);
    assert blocks.setNo[initial] == p.setNo[initial];
    BuiltIsFolded(g, order, net, p, m, initial, accept, trans);
    h, count := Graph(blocks.setNo[initial], accept, trans), blocks.setCount;
    block, rep := p.setNo, Reps(p);
  }

  lemma FoldedHasNoDeadTransitions(g: Graph, order: seq<State>, net: Net, block: seq<nat>, rep: seq<nat>, h: Graph)
    requires IsFolded(g, order, net, block, rep, h) && g.NoDeadTransitions()
    ensures h.NoDeadTransitions()
  {
    forall b, e | b in h.trans && e in h.trans[b] ensures h.Live(e.to) {
      var t := FoldedEdge(g, order, net, block, rep, h, b, e);
      assert Edge(net, order, t) in g.trans[order[net.tails[t]]];
      assert g.Live(order[net.heads[t]]);
      var w :| g.Accepts(order[net.heads[t]], w);
      FoldedAccepts(g, order, net, block, rep, h, net.heads[t], w);
    }
  }

  ghost predicate BlockInside(order: seq<State>, block: seq<nat>, b: set<State>, q: State)
    requires |block| == |order|
  {
    forall j {:trigger order[j]} {:trigger block[j]} :: 0 <= j < |order| && order[j] == q ==> block[j] in b
  }

  lemma StaysInside(g: Graph, states: set<State>, points: seq<Char>, s: Graph, order: seq<State>, net: Net,
      block: seq<nat>, rep: seq<nat>, h: Graph,
                    b: set<State>, j: nat, t: Transition)
    requires g.Valid() && IsSplit(g, states, points, s) && IsFolded(s, order, net, block, rep, h) && Closed(h, b)
    requires j < |order| && order[j] in states && order[j] in g.trans && t in g.trans[order[j]] && block[j] in b
    ensures BlockInside(order, block, b, t.to)
  {
    MovesOn(g, order[j], t);
    SplitSucc(g, states, points, s, order[j], t.min);
    forall k | 0 <= k < |order| && order[k] == t.to ensures block[k] in b {
      FoldedStep(s, order, net, block, rep, h, j, t.min, k);
      var d :| d in h.Out(block[j]) && d.Covers(t.min) && d.to == block[k];
    }
  }

  /** Every reachable state has a reachable block. */
  lemma BlocksAreReachable(g: Graph, states: set<State>, points: seq<Char>, s: Graph, order: seq<State>, net: Net,
      block: seq<nat>, rep: seq<nat>, h: Graph, initial: nat, i: nat)
    requires g.Valid() && IsSplit(g, states, points, s) && Closed(g, states) && IsFolded(s, order, net, block, rep, h)
        && IsOrder(states, order)
    requires initial < |order| && order[initial] == g.initial && h.initial == block[initial] && i < |order|
        && g.Reachable(order[i])
    ensures h.Reachable(block[i])
  {
    forall b | h.initial in b && Closed(h, b) ensures block[i] in b {
      var inside := set q | q in states && BlockInside(order, block, b, q);
      forall q, t | q in inside && t in g.trans[q] ensures t.to in inside {
        assert q in order;
        var j :| 0 <= j < |order| && order[j] == q;
        StaysInside(g, states, points, s, order, net, block, rep, h, b, j, t);
      }
      assert order[initial] in order;
      assert BlockInside(order, block, b, g.initial);
      assert Closed(g, inside) && g.initial in inside;
      assert order[i] in inside;
    }
  }

  lemma MovesOn(g: Graph, q: State, t: Transition)
    requires g.Valid() && q in g.trans && t in g.trans[q]
    ensures t.to in g.Succ(q, t.min)
  {
    assert t.Covers(t.min);
  }

  /** The folded automaton is minimal exactly when states with the same right language have moves on the same
      characters. */
  lemma MinimalIffDefinedAlike(g: Graph, states: set<State>, points: seq<Char>, s: Graph, order: seq<State>, net: Net,
      block: seq<nat>, rep: seq<nat>, h: Graph, initial: nat)
    requires g.Valid() && IsSplit(g, states, points, s) && Closed(g, states) && IsOrder(states, order) && forall q ::
        q in states ==> g.Reachable(q)
    requires IsFolded(s, order, net, block, rep, h) && Coarsest(s, order, net, block) && Atomic(net)
    requires initial < |order| && order[initial] == g.initial && h.initial == block[initial]
    ensures h.Minimal() <==> DefinedAlike(g, states)
  {
    assert (set q | q in order) == states;
    SplitDefinesAlike(g, states, points, s);
    if DefinedAlike(g, states) {
      ClassesAreStable(s, order, net);
      assert Closed(s, states);
      forall i: nat, j: nat | i < |order| && j < |order| && s.SameRight(order[i], order[j])
          ensures block[i] == block[j]
      {
        assert order[i] in order && order[j] in order;
        DefinedAlikeIsAlike(s, states, order[i], order[j]);
        ClassesAreAlike(s, order, i, j);
      }
      FoldedIsMinimal(s, order, net, block, rep, h);
    }
    if h.Minimal() {
      forall i: nat, j: nat | i < |order| && j < |order| && s.SameRight(order[i], order[j])
          ensures block[i] == block[j]
      {
        assert order[i] in order && order[j] in order;
        BlocksAreReachable(g, states, points, s, order, net, block, rep, h, initial, i);
        BlocksAreReachable(g, states, points, s, order, net, block, rep, h, initial, j);
        forall w ensures h.Accepts(block[i], w) <==> h.Accepts(block[j], w) {
          FoldedAccepts(s, order, net, block, rep, h, i, w);
          FoldedAccepts(s, order, net, block, rep, h, j, w);
        }
        assert h.SameRight(block[i], block[j]);
      }
      StableIsDefinedAlike(s, order, net, block);
    }
  }

  lemma SplitDefinesAlike(g: Graph, states: set<State>, points: seq<Char>, s: Graph)
    requires IsSplit(g, states, points, s)
    ensures DefinedAlike(g, states) <==> DefinedAlike(s, states)
  {
    forall q | q in states ensures forall w :: s.Accepts(q, w) <==> g.Accepts(q, w) {
      forall w ensures s.Accepts(q, w) <==> g.Accepts(q, w) {
        SplitAccepts(g, states, points, s, q, w);
      }
    }
    forall q, c: Char | q in states ensures s.Succ(q, c) == g.Succ(q, c) {
      SplitSucc(g, states, points, s, q, c);
    }
  }

  /** The folded automaton reads the words of the given one. */
  lemma FoldedReads(g: Graph, states: set<State>, points: seq<Char>, s: Graph, order: seq<State>, net: Net,
      block: seq<nat>, rep: seq<nat>, h: Graph, initial: nat)
    requires g.Valid() && IsSplit(g, states, points, s) && g.initial in states && IsFolded(s, order, net, block, rep, h)
    requires initial < |order| && order[initial] == g.initial && h.initial == block[initial]
    ensures SameLanguage(Running(g), Running(h))
  {
    assert Running(g).accept * states == states == Running(s).accept;
    assert IsSplit(Running(g), states, points, Running(s));
    FoldedRuns(s, order, net, block, rep, h);
    forall w ensures Running(g).Language(w) <==> Running(h).Language(w) {
      FoldedAccepts(Running(s), order, net, block, rep, Running(h), initial, w);
      SplitAccepts(Running(g), states, points, Running(s), g.initial, w);
    }
  }

  /** Splits the transitions, lists them, refines and folds. */
  method ValmariQuotient(g: Graph, states: set<State>) returns (h: Graph, count: nat)
    requires g.Valid() && g.Deterministic() && Closed(g, states) && g.initial in states && forall q :: q in states ==>
        g.Reachable(q)
    ensures h.Valid() && h.Deterministic() && (forall q :: q in h.trans ==> q < count) && SameLanguage(g, h)
    ensures g.NoDeadTransitions() ==> h.NoDeadTransitions()
    ensures h.Minimal() <==> DefinedAlike(g, states)
    ensures Distinct(h) && SameLanguage(Running(g), Running(h))
  {
    var order, number := Enumerate(states);
    var s, points := SplitTransitions(g, states);
    SplitIsValid(g, states, points, s);
    var net := ListTransitions(s, order, number);
    SplitIsAtomic(g, states, points, s, order, net);
    ghost var block, rep;
    h, count, block, rep := Fold(s, order, net, number[g.initial]);
    FoldedIsValid(s, order, net, block, rep, h);
    FoldedLanguage(g, states, points, s, order, net, block, rep, h, number[g.initial]);
    MinimalIffDefinedAlike(g, states, points, s, order, net, block, rep, h, number[g.initial]);
    FoldedIsDistinct(s, order, net, block, rep, h);
    FoldedReads(g, states, points, s, order, net, block, rep, h, number[g.initial]);
  }

  lemma FoldedLanguage(g: Graph, states: set<State>, points: seq<Char>, s: Graph, order: seq<State>, net: Net,
      block: seq<nat>, rep: seq<nat>, h: Graph, initial: nat)
    requires g.Valid() && IsSplit(g, states, points, s) && g.initial in states && IsFolded(s, order, net, block, rep, h)
    requires initial < |order| && order[initial] == g.initial && h.initial == block[initial]
    ensures SameLanguage(g, h) && (g.NoDeadTransitions() ==> h.NoDeadTransitions())
  {
    forall w ensures g.Language(w) <==> h.Language(w) {
      FoldedAccepts(s, order, net, block, rep, h, initial, w);
      SplitAccepts(g, states, points, s, g.initial, w);
    }
    if g.NoDeadTransitions() {
      SplitKeepsLive(g, states, points, s);
      FoldedHasNoDeadTransitions(s, order, net, block, rep, h);
    }
  }

  /** Combining intervals keeps what is read and what is told apart. */
  lemma ReducedRuns(h: Graph, k: Graph)
    requires h.Valid() && k.Valid() && (forall q :: q in k.trans <==> h.Reachable(q))
        && IsReduction(h.Restrict(k.trans.Keys), k)
    ensures SameLanguage(Running(h), Running(k)) && (Distinct(h) ==> Distinct(k))
  {
    var r := h.Restrict(k.trans.Keys);
    assert Closed(h, h.trans.Keys);
    assert Closed(h, k.trans.Keys) by {
      forall q, t | q in k.trans.Keys && t in h.trans[q] ensures t.to in k.trans.Keys {
        ReachableStep(h, q, t);
      }
    }
    assert Running(h).Restrict(k.trans.Keys) == Running(r);
    assert IsReduction(Running(r), Running(k));
    ReductionKeepsLanguages(r, k);
    ReductionKeepsLanguages(Running(r), Running(k));
    assert Closed(Running(h), k.trans.Keys);
    forall q, w | q in k.trans
        ensures (k.Accepts(q, w) <==> h.Accepts(q, w)) && (Running(k).Accepts(q, w) <==> Running(h).Accepts(q, w))
    {
      RestrictKeepsLanguages(h, k.trans.Keys, q, w);
      RestrictKeepsLanguages(Running(h), k.trans.Keys, q, w);
    }
    assert h.Reachable(h.initial);
    if Distinct(h) {
      assert Closed(k, k.trans.Keys);
      forall q, p | k.Reachable(q) && k.Reachable(p) && Alike(k, q, p) ensures q == p {
        assert Alike(h, q, p);
      }
    }
  }

  lemma ReadAlike(g: Graph, h: Graph)
    requires g.Valid() && h.Valid() && SameLanguage(Running(g), Running(h))
    ensures forall w {:trigger HasRun(g, g.initial, w)} {:trigger HasRun(h, h.initial, w)} ::
        HasRun(g, g.initial, w) <==> HasRun(h, h.initial, w)
  {
    forall w ensures HasRun(g, g.initial, w) <==> HasRun(h, h.initial, w) {
      RunningAccepts(g, g.initial, w);
      RunningAccepts(h, h.initial, w);
      assert Running(g).Language(w) <==> Running(h).Language(w);
    }
  }

  /** Without transitions to dead states, a state moves on a character exactly when some word that begins with it is
      accepted. */
  lemma LiveIsDefinedAlike(g: Graph, states: set<State>)
    requires g.Valid() && g.NoDeadTransitions() && states <= g.trans.Keys
    ensures DefinedAlike(g, states)
  {
    forall q, p, c: Char | q in states && p in states && g.SameRight(q, p) && g.Succ(q, c) != {}
        ensures g.Succ(p, c) != {}
    {
      var r :| r in g.Succ(q, c);
      var t :| t in g.Out(q) && t.Covers(c) && t.to == r;
      assert g.Live(t.to);
      var v :| g.Accepts(r, v);
      assert ([c] + v)[1..] == v;
      assert g.Accepts(q, [c] + v);
      assert g.Accepts(p, [c] + v);
      var r' :| r' in g.Succ(p, c);
    }
  }

  /** Minimizes the automaton. The language is kept in any case, and any two reachable states of the result are told
      apart by some word that only one of them accepts or that only one of them can read. An automaton that is marked as
      deterministic is not determinized first; its result reads the same words, and it is minimal exactly when its
      reachable states with the same right language have moves on the same characters, as they have when there are no
      transitions to dead states. */
  method MinimizeValmari(a: Automaton)
    requires a.Valid()
    modifies a
    ensures a.Valid() && a.deterministic && a.Snapshot().Reduced() && SameLanguage(old(a.Snapshot()), a.Snapshot())
    ensures !old(a.deterministic) || old(a.Snapshot()).NoDeadTransitions() ==> a.Clean() && a.Snapshot().Minimal()
    ensures old(a.deterministic) ==>
        (a.Snapshot().Minimal() <==> DefinedAlike(old(a.Snapshot()), old(a.Snapshot()).ReachableStates()))
    ensures forall q, p :: a.Snapshot().Reachable(q) && a.Snapshot().Reachable(p) && q != p ==>
        exists w :: TellsApart(a.Snapshot(), q, p, w)
    ensures old(a.deterministic) ==>
        forall w :: HasRun(old(a.Snapshot()), old(a.initial), w) <==> HasRun(a.Snapshot(), a.initial, w)
  {
    BasicOperations.Determinize(a);
    ghost var g := a.Snapshot();
    var states := a.GetStates();
    if g.NoDeadTransitions() {
      LiveIsDefinedAlike(g, states);
    }
    var h, count := ValmariQuotient(a.Snapshot(), states);
    a.initial, a.accept, a.trans, a.nextId := h.initial, h.accept, h.trans, count;
    assert a.Snapshot() == h;
    a.Reduce();
    ReducedQuotient(h, a.Snapshot());
    ReducedRuns(h, a.Snapshot());
    DistinctAreToldApart(a.Snapshot());
    ReadAlike(g, a.Snapshot());
  }

  /** States 1 and 2 accept the empty word only, but only 1 has a move, to the dead state 3. */
  const DEAD_END: Graph := Graph(0, {1, 2},
    map[0 := {Transition(97, 97, 1), Transition(98, 98, 2)}, 1 := {Transition(97, 97, 3)}, 2 := {}, 3 := {}])

  lemma DeadEndsAgree()
    ensures DEAD_END.SameRight(1, 2)
  {
    var g := DEAD_END;
    forall w ensures g.Accepts(1, w) <==> g.Accepts(2, w) {
      if w != [] {
        assert g.Succ(2, w[0]) == {};
        forall p | p in g.Succ(1, w[0]) ensures p == 3 && !g.Accepts(p, w[1..]) {
          assert w[1..] == [] || g.Succ(3, w[1..][0]) == {};
        }
      }
    }
  }

  lemma DeadEndsAreReachable()
    ensures DEAD_END.Reachable(1) && DEAD_END.Reachable(2)
  {
    var g := DEAD_END;
    assert g.Reachable(0);
    ReachableStep(g, 0, Transition(97, 97, 1));
    ReachableStep(g, 0, Transition(98, 98, 2));
  }

  lemma DeadEndIsValid()
    ensures DEAD_END.Valid() && DEAD_END.Deterministic()
  {
  }

  lemma DeadEndsMove()
    ensures DEAD_END.Succ(1, 97) != {} && DEAD_END.Succ(2, 97) == {}
  {
    var d := Transition(97, 97, 3);
    assert d in DEAD_END.Out(1) && d.Covers(97);
    assert d.to in DEAD_END.Succ(1, 97);
  }

  /** An automaton whose result is not minimal. */
  lemma DeadEndsSeparate()
    ensures DEAD_END.Valid() && DEAD_END.Deterministic() && !DefinedAlike(DEAD_END, DEAD_END.ReachableStates())
  {
    DeadEndIsValid();
    DeadEndsAgree();
    DeadEndsAreReachable();
    DeadEndsMove();
    var states := DEAD_END.ReachableStates();
    assert 1 in states && 2 in states;
  }
}
