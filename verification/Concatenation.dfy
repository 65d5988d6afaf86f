/** Concatenation, union of many, optional and repetition: automata linked by in-place epsilon transitions. */
module Concatenations {
  import opened Languages
  import opened Automata
  import opened Products
  import opened Unions

  // ----- one graph linked to another -----

  /** g with the acceptance that is left before the links are made. */
  function Kept(g: Graph, ac: set<State>, keep: bool): Graph {
    Graph(g.initial, if keep then g.accept else g.accept - ac, g.trans)
  }

  function Extra(g2: Graph, d: nat): set<Transition> {
    LiftedRow(g2.Out(g2.initial), d)
  }

  ghost predicate LinkedAt(g1: Graph, g2: Graph, d: nat, ac: set<State>, keep: bool, h: Graph, q: State)
    requires q in g1.trans
  {
    && q in h.trans && h.trans[q] == g1.trans[q] + (if q in ac then Extra(g2, d) else {})
    && (q in h.accept <==> q in Kept(g1, ac, keep).accept || (q in ac && g2.initial in g2.accept))
  }

  /** h holds g1 and g2, and an epsilon transition from each state of ac to the start of g2. */
  ghost predicate Linked(g1: Graph, g2: Graph, d: nat, ac: set<State>, keep: bool, h: Graph) {
    && g1.Valid() && g2.Valid() && Embeds(g2, h, d) && h.initial == g1.initial
    && (forall q {:trigger LinkedAt(g1, g2, d, ac, keep, h, q)} :: q in g1.trans ==>
         LinkedAt(g1, g2, d, ac, keep, h, q))
  }

  /** From q, a state of ac is reached and the rest is a word of g2. */
  ghost predicate CrossesAt(g1: Graph, g2: Graph, ac: set<State>, q: State, w: Word, i: nat, p: State) {
    i <= |w| && p in ac && g1.Reaches(q, w[..i], p) && g2.Language(w[i..])
  }

  ghost predicate Crosses(g1: Graph, g2: Graph, ac: set<State>, q: State, w: Word) {
    exists i: nat, p :: CrossesAt(g1, g2, ac, q, w, i, p)
  }

  lemma LinkedSucc(g1: Graph, g2: Graph, d: nat, ac: set<State>, keep: bool, h: Graph, q: State, c: Char)
    requires Linked(g1, g2, d, ac, keep, h) && q in g1.trans
    ensures h.Succ(q, c) == g1.Succ(q, c) + (if q in ac then h.Succ(Up(g2.initial, d), c) else {})
  {
    assert LinkedAt(g1, g2, d, ac, keep, h, q);
    assert EmbedsAt(g2, h, d, g2.initial);
    assert q in ac ==> h.Out(q) == g1.Out(q) + h.Out(Up(g2.initial, d));
  }

  lemma CrossesStep(g1: Graph, g2: Graph, ac: set<State>, q: State, w: Word)
    requires w != []
    ensures Crosses(g1, g2, ac, q, w) <==> (q in ac && g2.Language(w)) || exists p ::
        p in g1.Succ(q, w[0]) && Crosses(g1, g2, ac, p, w[1..])
  {
    if i: nat, p :| CrossesAt(g1, g2, ac, q, w, i, p) {
      if i == 0 {
        assert w[0..] == w;
      } else {
        var r :| r in g1.Succ(q, w[..i][0]) && g1.Reaches(r, w[..i][1..], p);
        assert w[..i][1..] == w[1..][..i - 1] && w[i..] == w[1..][i - 1..];
        assert CrossesAt(g1, g2, ac, r, w[1..], i - 1, p);
      }
    }
    if q in ac && g2.Language(w) {
      assert w[..0] == [] && w[0..] == w;
      assert CrossesAt(g1, g2, ac, q, w, 0, q);
    }
    if r :| r in g1.Succ(q, w[0]) && Crosses(g1, g2, ac, r, w[1..]) {
      var i: nat, p :| CrossesAt(g1, g2, ac, r, w[1..], i, p);
      assert w[..i + 1][1..] == w[1..][..i] && w[i + 1..] == w[1..][i..];
      assert g1.Reaches(q, w[..i + 1], p);
      assert CrossesAt(g1, g2, ac, q, w, i + 1, p);
    }
  }

  lemma CrossesNothing(g1: Graph, g2: Graph, ac: set<State>, q: State)
    ensures Crosses(g1, g2, ac, q, []) <==> q in ac && g2.initial in g2.accept
  {
    var w: Word := [];
    assert w[..0] == [] && w[0..] == [];
    if q in ac && g2.initial in g2.accept {
      assert CrossesAt(g1, g2, ac, q, w, 0, q);
    }
  }

  /** A state of g1 accepts what it accepted before and what crosses into g2. */
  lemma {:induction false} LinkedAccepts(g1: Graph, g2: Graph, d: nat, ac: set<State>, keep: bool, h: Graph, q: State,
      w: Word)
    requires Linked(g1, g2, d, ac, keep, h) && q in g1.trans
    ensures h.Accepts(q, w) <==> Kept(g1, ac, keep).Accepts(q, w) || Crosses(g1, g2, ac, q, w)
    decreases |w|
  {
    var k := Kept(g1, ac, keep);
    assert LinkedAt(g1, g2, d, ac, keep, h, q);
    if w == [] {
      CrossesNothing(g1, g2, ac, q);
    } else {
      LinkedSucc(g1, g2, d, ac, keep, h, q, w[0]);
      CrossesStep(g1, g2, ac, q, w);
      assert k.Succ(q, w[0]) == g1.Succ(q, w[0]);
      EmbedAccepts(g2, h, d, g2.initial, w);
      forall p | p in g1.Succ(q, w[0])
          ensures h.Accepts(p, w[1..]) <==> k.Accepts(p, w[1..]) || Crosses(g1, g2, ac, p, w[1..])
      {
        LinkedAccepts(g1, g2, d, ac, keep, h, p, w[1..]);
      }
    }
  }

  // ----- linking in place -----

  /** The accepting states of a closed part of the graph. */
  ghost predicate AcceptOf(g: Graph, part: set<State>, ac: set<State>) {
    Closed(g, part) && g.initial in part && ac == g.accept * part
  }

  function Beside(g1: Graph, g2: Graph, d: nat): Graph {
    Graph(g1.initial, g1.accept + LiftedStates(g2.accept, d), g1.trans + LiftedTrans(g2.trans, d))
  }

  lemma BesideEmbeds(g1: Graph, g2: Graph, d: nat, q: State)
    requires g1.Valid() && g2.Valid() && Below(g1.trans, d)
    ensures q in g2.trans ==> EmbedsAt(g2, Beside(g1, g2, d), d, q) && Up(q, d) !in g1.trans
    ensures q in g1.trans ==>
        q in Beside(g1, g2, d).trans && Beside(g1, g2, d).trans[q] == g1.trans[q]
        && (q in g1.accept <==> q in Beside(g1, g2, d).accept)
  {
    if q in g2.trans {
      assert Up(q, d) in LiftedStates(g2.trans.Keys, d);
      assert Up(q, d) !in g1.trans && Up(q, d) !in g1.accept;
      assert q in g2.accept <==> Up(q, d) in LiftedStates(g2.accept, d);
    }
    if q in g1.trans {
      assert q < d && q !in LiftedStates(g2.trans.Keys, d) && q !in LiftedStates(g2.accept, d);
    }
  }

  /** addEpsilon for one state, its acceptance having been cleared or kept. */
  function WithLink(h: Graph, s: State, start: State, keep: bool): Graph {
    Graph(h.initial,
          if start in h.accept then h.accept + {s} else if keep then h.accept else h.accept - {s},
          h.trans[s := h.Out(s) + h.Out(start)])
  }

  /** The loop over the accepting states, the states of todo being still without their link. */
  ghost predicate Linking(g1: Graph, g2: Graph, d: nat, ac: set<State>, todo: set<State>, keep: bool, h: Graph) {
    && Linked(g1, g2, d, ac - todo, keep, h) && h.Valid() && h.trans.Keys == g1.trans.Keys + LiftedStates(g2.trans.Keys,
         d)
  }

  lemma StartLinking(g1: Graph, g2: Graph, d: nat, ac: set<State>, keep: bool)
    requires g1.Valid() && g2.Valid() && Below(g1.trans, d) && ac <= g1.trans.Keys
    ensures Linking(g1, g2, d, ac, ac, keep, Beside(g1, g2, d))
  {
    var h := Beside(g1, g2, d);
    forall q | q in g2.trans ensures EmbedsAt(g2, h, d, q) {
      BesideEmbeds(g1, g2, d, q);
    }
    forall q | q in g1.trans ensures LinkedAt(g1, g2, d, ac - ac, keep, h, q) {
      BesideEmbeds(g1, g2, d, q);
    }
    BesideIsValid(g1, g2, d);
  }

  lemma BesideIsValid(g1: Graph, g2: Graph, d: nat)
    requires g1.Valid() && g2.Valid() && Below(g1.trans, d)
    ensures Beside(g1, g2, d).Valid()
  {
    var h := Beside(g1, g2, d);
    forall q, t | q in h.trans && t in h.trans[q] ensures t.min <= t.max && t.to in h.trans {
      if q in g1.trans {
        BesideEmbeds(g1, g2, d, q);
      } else {
        var p :| p in g2.trans && q == Up(p, d);
        BesideEmbeds(g1, g2, d, p);
        var u :| u in g2.trans[p] && t == Lifted(u, d);
        BesideEmbeds(g1, g2, d, u.to);
      }
    }
    forall q | q in h.accept ensures q in h.trans {
      if q !in g1.accept {
        var p :| p in g2.accept && q == Up(p, d);
        BesideEmbeds(g1, g2, d, p);
      }
    }
  }

  lemma LinkOne(g1: Graph, g2: Graph, d: nat, ac: set<State>, todo: set<State>, keep: bool, h: Graph, s: State)
    requires Linking(g1, g2, d, ac, todo, keep, h) && Below(g1.trans, d) && ac <= g1.trans.Keys && s in todo
        && todo <= ac
    ensures Linking(g1, g2, d, ac, todo - {s}, keep, WithLink(h, s, Up(g2.initial, d), keep))
  {
    var h' := WithLink(h, s, Up(g2.initial, d), keep);
    assert EmbedsAt(g2, h, d, g2.initial) && LinkedAt(g1, g2, d, ac - todo, keep, h, s);
    forall q | q in g2.trans ensures EmbedsAt(g2, h', d, q) {
      assert EmbedsAt(g2, h, d, q) && Up(q, d) >= d && s < d;
    }
    forall q | q in g1.trans ensures LinkedAt(g1, g2, d, ac - (todo - {s}), keep, h', q) {
      assert LinkedAt(g1, g2, d, ac - todo, keep, h, q);
    }
  }

  /** Copies aa beside b and adds an epsilon transition to its start to each state of ac, in place. */
  method Link(b: Automaton, ac: set<State>, aa: Automaton, keep: bool)
    requires b.Valid() && aa.Valid() && b != aa && ac <= b.trans.Keys
    modifies b
    ensures b.Valid() && !b.deterministic && b.nextId == old(b.nextId) + aa.nextId
    ensures Linked(old(b.Snapshot()), aa.Snapshot(), old(b.nextId), ac, keep, b.Snapshot())
    ensures b.trans.Keys == old(b.trans.Keys) + LiftedStates(aa.trans.Keys, old(b.nextId))
  {
    ghost var g1, g2 := b.Snapshot(), aa.Snapshot();
    var d := b.nextId;
    StartLinking(g1, g2, d, ac, keep);
    b.accept, b.trans, b.nextId, b.deterministic := b.accept + LiftedStates(aa.accept, d),
      b.trans + LiftedTrans(aa.trans, d), d + aa.nextId, false;
    assert b.Snapshot() == Beside(g1, g2, d);
    LinkStates(b, ac, Up(aa.initial, d), keep, g1, g2, d);
    assert ac - {} == ac;
    forall q | q in b.trans ensures q < b.nextId {
      if q !in g1.trans {
        var p :| p in g2.trans && q == Up(p, d);
      }
    }
  }

  method LinkStates(b: Automaton, ac: set<State>, start: State, keep: bool, ghost g1: Graph, ghost g2: Graph,
      ghost d: nat)
    requires Linking(g1, g2, d, ac, ac, keep, b.Snapshot()) && Below(g1.trans, d) && ac <= g1.trans.Keys
        && start == Up(g2.initial, d)
    modifies b`accept, b`trans
    ensures Linking(g1, g2, d, ac, {}, keep, b.Snapshot())
  {
    var todo := ac;
    while todo != {}
      invariant todo <= ac && Linking(g1, g2, d, ac, todo, keep, b.Snapshot())
    {
      var s :| s in todo;
      ghost var h := b.Snapshot();
      LinkOne(g1, g2, d, ac, todo, keep, h, s);
      assert EmbedsAt(g2, h, d, g2.initial) && LinkedAt(g1, g2, d, ac - todo, keep, h, s);
      if !keep {
        b.accept := b.accept - {s};
      }
      if start in b.accept {
        b.accept := b.accept + {s};
      }
      b.trans := b.trans[s := b.trans[s] + b.trans[start]];
      assert b.Snapshot() == WithLink(h, s, start, keep);
      todo := todo - {s};
    }
  }

  // ----- concatenation -----

  ghost predicate Concatenated(g1: Graph, g2: Graph, w: Word) {
    exists i: nat :: SplitsAt(g1, g2, w, i)
  }

  ghost predicate SplitsAt(g1: Graph, g2: Graph, w: Word, i: nat) {
    i <= |w| && g1.Language(w[..i]) && g2.Language(w[i..])
  }

  /** With a link from every accepting state, the words that cross are the concatenations. */
  lemma CrossesConcatenates(g1: Graph, g2: Graph, part: set<State>, ac: set<State>, w: Word)
    requires AcceptOf(g1, part, ac)
    ensures Crosses(g1, g2, ac, g1.initial, w) <==> Concatenated(g1, g2, w)
  {
    if i: nat, p :| CrossesAt(g1, g2, ac, g1.initial, w, i, p) {
      RunAccepts(g1, g1.initial, w[..i], p);
      assert SplitsAt(g1, g2, w, i);
    }
    if i: nat :| SplitsAt(g1, g2, w, i) {
      var r := EndOfRun(g1, g1.initial, w[..i]);
      ClosedHoldsReached(g1, part, g1.initial, w[..i], r);
      assert CrossesAt(g1, g2, ac, g1.initial, w, i, r);
    }
  }

  lemma NothingKept(g: Graph, part: set<State>, ac: set<State>, w: Word)
    requires AcceptOf(g, part, ac)
    ensures !Kept(g, ac, false).Accepts(g.initial, w)
    ensures Kept(g, ac, true).Accepts(g.initial, w) <==> g.Language(w)
  {
    var k := Kept(g, ac, false);
    if k.Accepts(g.initial, w) {
      var r := EndOfRun(k, g.initial, w);
      assert Closed(k, part);
      ClosedHoldsReached(k, part, g.initial, w, r);
    }
    assert Kept(g, ac, true) == g;
  }

  lemma LinkedLanguage(g1: Graph, g2: Graph, d: nat, part: set<State>, ac: set<State>, keep: bool, h: Graph, w: Word)
    requires Linked(g1, g2, d, ac, keep, h) && AcceptOf(g1, part, ac)
    ensures h.Language(w) <==> (keep && g1.Language(w)) || Concatenated(g1, g2, w)
  {
    LinkedAccepts(g1, g2, d, ac, keep, h, g1.initial, w);
    CrossesConcatenates(g1, g2, part, ac, w);
    NothingKept(g1, part, ac, w);
  }

  /** Concatenated words of a list of graphs. */
  ghost predicate Sequence(gs: seq<Graph>, w: Word) {
    if gs == [] then w == []
    else exists i: nat :: i <= |w| && Sequence(gs[..|gs| - 1], w[..i]) && gs[|gs| - 1].Language(w[i..])
  }

  lemma SequenceStep(gs: seq<Graph>, g: Graph, w: Word)
    ensures Sequence(gs + [g], w) <==> exists i: nat :: i <= |w| && Sequence(gs, w[..i]) && g.Language(w[i..])
  {
    assert (gs + [g])[..|gs|] == gs;
  }

  ghost predicate StandsFor(g: Graph, gs: seq<Graph>) {
    forall w :: g.Language(w) <==> Sequence(gs, w)
  }

  lemma ConcatenatedStandsFor(g: Graph, gs: seq<Graph>, g2: Graph, h: Graph)
    requires StandsFor(g, gs) && forall w :: h.Language(w) <==> Concatenated(g, g2, w)
    ensures StandsFor(h, gs + [g2])
  {
    forall w ensures h.Language(w) <==> Sequence(gs + [g2], w) {
      SequenceStep(gs, g2, w);
      if i: nat :| SplitsAt(g, g2, w, i) {
        assert Sequence(gs, w[..i]);
      }
      if i: nat :| i <= |w| && Sequence(gs, w[..i]) && g2.Language(w[i..]) {
        assert SplitsAt(g, g2, w, i);
      }
    }
  }

  lemma EmptyStringStandsFor(g: Graph, gs: seq<Graph>, g2: Graph)
    requires StandsFor(g, gs) && forall w :: g2.Language(w) <==> w == []
    ensures StandsFor(g, gs + [g2])
  {
    forall w ensures g.Language(w) <==> Sequence(gs + [g2], w) {
      SequenceStep(gs, g2, w);
      assert w[..|w|] == w && w[|w|..] == [];
      if i: nat :| i <= |w| && Sequence(gs, w[..i]) && g2.Language(w[i..]) {
        assert w[..i] == w;
      }
    }
  }

  lemma {:induction false} EmptyInSequence(gs: seq<Graph>, k: nat, w: Word)
    requires k < |gs| && forall v :: !gs[k].Language(v)
    ensures !Sequence(gs, w)
    decreases |gs|
  {
    if k < |gs| - 1 {
      forall i: nat | i <= |w| ensures !Sequence(gs[..|gs| - 1], w[..i]) {
        EmptyInSequence(gs[..|gs| - 1], k, w[..i]);
      }
    }
  }

  /** After a link the states accepting in the old part, if any, and those of the copy are the accepting ones. */
  lemma LinkedAcceptOf(g1: Graph, g2: Graph, d: nat, part: set<State>, ac: set<State>, keep: bool, h: Graph,
      part2: set<State>, ac2: set<State>)
    requires Linked(g1, g2, d, ac, keep, h) && h.Valid() && h.trans.Keys == g1.trans.Keys + LiftedStates(g2.trans.Keys,
        d)
    requires Below(g1.trans, d) && AcceptOf(g1, part, ac) && AcceptOf(g2, part2, ac2)
    ensures Closed(h, part + LiftedStates(part2, d))
    ensures !keep ==> h.accept * (part + LiftedStates(part2, d)) == LiftedStates(ac2, d) + (if g2.initial in g2.accept
        then ac else {})
  {
    var whole := part + LiftedStates(part2, d);
    forall q, t | q in whole && t in h.trans[q] ensures t.to in whole {
      if q in part && t in g1.trans[q] {
      } else {
        var p := FromSecond(g1, g2, d, part, ac, keep, h, part2, q, t);
        var u :| u in g2.trans[p] && t == Lifted(u, d);
        assert Up(u.to, d) in LiftedStates(part2, d);
      }
    }
    if !keep {
      assert LiftedStates(ac2, d) <= LiftedStates(part2, d);
      forall q ensures q in h.accept * whole <==> q in LiftedStates(ac2, d) + (if g2.initial in g2.accept then ac
          else {})
      {
        if q in part {
          assert LinkedAt(g1, g2, d, ac, keep, h, q);
          assert q !in LiftedStates(ac2, d);
        } else if q in LiftedStates(part2, d) {
          var p :| p in part2 && q == Up(p, d);
          assert EmbedsAt(g2, h, d, p);
          assert p in ac2 <==> q in LiftedStates(ac2, d);
        }
      }
    }
  }

  /** A transition of the linked graph that is not one of g1 is one of g2, and of its part. */
  lemma FromSecond(g1: Graph, g2: Graph, d: nat, part: set<State>, ac: set<State>, keep: bool, h: Graph,
      part2: set<State>, q: State, t: Transition) returns (p: State)
    requires Linked(g1, g2, d, ac, keep, h) && Closed(g1, part) && Closed(g2, part2) && g2.initial in part2
    requires q in part + LiftedStates(part2, d) && q in h.trans && t in h.trans[q] && !(q in part && t in g1.trans[q])
    ensures p in part2 && t in LiftedRow(g2.trans[p], d)
  {
    if q in part {
      assert LinkedAt(g1, g2, d, ac, keep, h, q);
      p := g2.initial;
    } else {
      p :| p in part2 && q == Up(p, d);
      assert EmbedsAt(g2, h, d, p);
    }
  }

  /** Accepts the empty string and reads nothing else: always right when it says yes, and always right if no transition
      leads to a dead state. */
  method IsEmptyString(a: Automaton) returns (r: bool)
    requires a.Valid()
    ensures r ==> forall w :: a.Snapshot().Language(w) <==> w == []
    ensures r <==> a.Snapshot().Language([]) && ReadsNothing(a.Snapshot())
  {
    ReadsNothingAtStart(a.Snapshot());
    r := a.initial in a.accept && a.trans[a.initial] == {};
  }

  /** A new automaton that accepts the empty string only. */
  method MakeEmptyString() returns (a: Automaton)
    ensures fresh(a) && a.Clean() && a.deterministic && forall w :: a.Snapshot().Language(w) <==> w == []
  {
    a := new Automaton();
    a.accept := {0};
  }

  ghost predicate AllValid(list: seq<Automaton>)
    reads list
  {
    forall i {:trigger list[i]} :: 0 <= i < |list| ==> list[i].Valid()
  }

  ghost function Snapshots(list: seq<Automaton>): (gs: seq<Graph>)
    reads list
    ensures |gs| == |list| && forall i :: 0 <= i < |list| ==> gs[i] == list[i].Snapshot()
  {
    if list == [] then [] else Snapshots(list[..|list| - 1]) + [list[|list| - 1].Snapshot()]
  }

  /** One more automaton of the list. */
  method Append(b: Automaton, aa: Automaton, ghost part: set<State>, ac: set<State>, ghost gs: seq<Graph>)
      returns (ghost part': set<State>, ac': set<State>)
    requires b.Valid() && aa.Valid() && b != aa && AcceptOf(b.Snapshot(), part, ac) && StandsFor(b.Snapshot(), gs)
    modifies b
    ensures b.Valid() && (old(!b.deterministic) ==> !b.deterministic) && AcceptOf(b.Snapshot(), part', ac')
        && StandsFor(b.Snapshot(), gs + [aa.Snapshot()])
  {
    ghost var g1, g2 := b.Snapshot(), aa.Snapshot();
    var emptyString := IsEmptyString(aa);
    if emptyString {
      EmptyStringStandsFor(g1, gs, g2);
      return part, ac;
    }
    var d := b.nextId;
    var ns := aa.GetAcceptStates();
    ghost var part2 := g2.ReachableStates();
    AcceptStatesAre(g2, ns);
    Link(b, ac, aa, false);
    ghost var h := b.Snapshot();
    LinkedAcceptOf(g1, g2, d, part, ac, false, h, part2, ns);
    part', ac' := part + LiftedStates(part2, d), LiftedStates(ns, d) + (if aa.initial in aa.accept then ac else {});
    forall w ensures h.Language(w) <==> Concatenated(g1, g2, w) {
      LinkedLanguage(g1, g2, d, part, ac, false, h, w);
    }
    ConcatenatedStandsFor(g1, gs, g2, h);
  }

  lemma AcceptStatesAre(g: Graph, accepts: set<State>)
    requires g.Valid() && forall q {:trigger q in accepts} :: q in accepts <==> q in g.accept && g.Reachable(q)
    ensures AcceptOf(g, g.ReachableStates(), accepts)
  {
    assert Closed(g, g.trans.Keys);
    forall q, t | q in g.ReachableStates() && t in g.trans[q] ensures t.to in g.ReachableStates() {
      ReachableStep(g, q, t);
    }
    assert accepts == g.accept * g.ReachableStates();
  }

  /** The concatenation of a list of automata, which may hold the same automaton more than once. */
  method ConcatenateAll(list: seq<Automaton>) returns (b: Automaton)
    requires AllValid(list)
    ensures fresh(b) && b.Valid() && (b.deterministic ==> b.Clean())
    ensures StandsFor(b.Snapshot(), Snapshots(list))
  {
    ghost var gs := Snapshots(list);
    if list == [] {
      b := MakeEmptyString();
      return;
    }
    var k := FindEmpty(list);
    if k < |list| {
      forall w ensures !Sequence(gs, w) {
        assert gs[k] == list[k].Snapshot();
        EmptyInSequence(gs, k, w);
      }
      b := MakeEmpty();
      return;
    }
    b := ConcatenateRest(list, gs);
  }

  method ConcatenateRest(list: seq<Automaton>, ghost gs: seq<Graph>) returns (b: Automaton)
    requires AllValid(list) && list != [] && gs == Snapshots(list)
    ensures fresh(b) && b.Valid() && !b.deterministic
    ensures StandsFor(b.Snapshot(), gs)
  {
    var ac;
    ghost var part;
    b, ac, part := First(list[0]);
    assert gs[..1] == [gs[0]];
    for i := 1 to |list|
      invariant fresh(b) && b.Valid() && !b.deterministic && AcceptOf(b.Snapshot(), part, ac)
      invariant StandsFor(b.Snapshot(), gs[..i])
    {
      assert gs[..i + 1] == gs[..i] + [list[i].Snapshot()];
      part, ac := Append(b, list[i], part, ac, gs[..i]);
    }
    assert gs[..|list|] == gs;
  }

  /** A copy of the first automaton, and its accepting states. */
  method First(a: Automaton) returns (b: Automaton, ac: set<State>, ghost part: set<State>)
    requires a.Valid()
    ensures fresh(b) && b.Valid() && !b.deterministic && AcceptOf(b.Snapshot(), part, ac)
    ensures StandsFor(b.Snapshot(), [a.Snapshot()])
  {
    b := Clone(a);
    b.deterministic := false;
    ac := b.GetAcceptStates();
    AcceptStatesAre(b.Snapshot(), ac);
    part := b.Snapshot().ReachableStates();
    OneStandsFor(b.Snapshot());
  }

  lemma OneStandsFor(g: Graph)
    ensures StandsFor(g, [g])
  {
    forall w ensures g.Language(w) <==> Sequence([g], w) {
      SequenceStep([], g, w);
      assert [] + [g] == [g];
      assert w[..0] == [] && w[0..] == w;
      assert Sequence([], w[..0]);
      if i: nat :| i <= |w| && Sequence([], w[..i]) && g.Language(w[i..]) {
        assert i == 0;
      }
    }
  }

  method FindEmpty(list: seq<Automaton>) returns (k: nat)
    requires AllValid(list)
    ensures k <= |list| && (k < |list| ==> forall w :: !list[k].Snapshot().Language(w))
  {
    for i := 0 to |list| {
      var empty := IsEmpty(list[i]);
      if empty {
        return i;
      }
    }
    return |list|;
  }
}
