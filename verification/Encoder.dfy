/** The loops of constructSAT: every group of constraints they add says exactly what Constraints says it says. */
module Encoder {
  import opened Languages
  import opened Automata
  import opened PrefixTrees
  import opened Encoding
  import opened Constraints
  import opened Formulas
  import opened Counting

  // ----- d -----

  method ConstrainSuccessor(cs0: seq<Formula>, n: nat, p: nat, a: nat) returns (cs: seq<Formula>)
    ensures Adds(cs0, cs, (m: Assignment) => HasSuccessor(m, n, p, a) && OneSuccessor(m, n, p, a))
  {
    var v, part := (q: nat) => D(p, a, q), (q: nat) => Lit(D(p, a, q));
    assert forall q: nat {:trigger D(p, a, q)} :: v(q) == D(p, a, q) && part(q) == Lit(D(p, a, q));
    var total := AnyOf(n, part);
    cs := Exclude(cs0, n, v);
    ghost var before := cs;
    AddsOne(cs, total);
    cs := cs + [total];
    forall m ensures Models(cs, m) <==> Models(cs0, m) && HasSuccessor(m, n, p, a) && OneSuccessor(m, n, p, a) {
      assert total.Eval(m) <==> HasSuccessor(m, n, p, a);
      assert Models(before, m) <==> Models(cs0, m) && OneSuccessor(m, n, p, a);
    }
  }

  method ConstrainD(cs0: seq<Formula>, n: nat, letters: nat) returns (cs: seq<Formula>)
    ensures Adds(cs0, cs, (m: Assignment) => DHolds(m, n, letters))
  {
    cs := cs0;
    for p := 0 to n
      invariant Adds(cs0, cs, (m: Assignment) => forall r: nat {:trigger DRow(m, n, letters, r)} :: r < p ==>
          DRow(m, n, letters, r))
    {
      ghost var before := cs;
      for a := 0 to letters
        invariant Adds(before, cs, (m: Assignment) => DRow(m, n, a, p))
      {
        cs := ConstrainSuccessor(cs, n, p, a);
      }
    }
  }

  // ----- x -----

  method ConstrainRoot(cs0: seq<Formula>, n: nat) returns (cs: seq<Formula>)
    ensures Adds(cs0, cs, (m: Assignment) => XRoot(m, n))
  {
    AddsOne(cs0, Lit(X(0, 0)));
    cs := cs0 + [Lit(X(0, 0))];
    var part := (q: nat) => Deny(X(0, q));
    assert forall q: nat {:trigger X(0, q)} :: part(q) == Deny(X(0, q));
    cs := AddRange(cs, 1, n, part);
  }

  /** The children that are there, in the order of their letters. */
  function Present(children: seq<Child>): seq<nat> {
    if children == [] then []
    else
      var last := children[|children| - 1];
      Present(children[..|children| - 1]) + if last.Child? then [last.id] else []
  }

  method ConstrainStep(cs0: seq<Formula>, n: nat, u: nat, a: nat, v: nat) returns (cs: seq<Formula>)
    ensures Adds(cs0, cs, (m: Assignment) => XStep(m, n, u, a, v))
  {
    var part := (p: nat, q: nat) => Leads(X(u, p), D(p, a, q), X(v, q));
    assert forall p: nat, q: nat {:trigger X(u, p), D(p, a, q)} :: part(p, q) == Leads(X(u, p), D(p, a, q), X(v, q));
    cs := AddGrid(cs0, n, n, part);
  }

  method ConstrainOneState(cs0: seq<Formula>, n: nat, u: nat) returns (cs: seq<Formula>)
    ensures Adds(cs0, cs, (m: Assignment) => OneState(m, n, u))
  {
    var v := (q: nat) => X(u, q);
    assert forall q: nat {:trigger X(u, q)} :: v(q) == X(u, q);
    cs := Exclude(cs0, n, v);
  }

  method ConstrainAcceptance(cs0: seq<Formula>, n: nat, u: nat, accept: int) returns (cs: seq<Formula>)
    ensures Adds(cs0, cs, (m: Assignment) => XAccept(m, n, u, accept))
  {
    cs := cs0;
    if accept > 0 {
      var part := (q: nat) => LeadsOne(X(u, q), F(q));
      assert forall q: nat {:trigger X(u, q)} :: part(q) == LeadsOne(X(u, q), F(q));
      cs := AddRange(cs, 0, n, part);
    } else if accept < 0 {
      var part := (q: nat) => Refuses(X(u, q), F(q));
      assert forall q: nat {:trigger X(u, q)} :: part(q) == Refuses(X(u, q), F(q));
      cs := AddRange(cs, 0, n, part);
    }
  }

  /** Every child among the first k follows node u. */
  ghost predicate ChildrenFollow(m: Assignment, n: nat, u: nat, children: seq<Child>, k: nat)
    requires k <= |children|
  {
    forall a: nat {:trigger children[a]} :: a < k && children[a].Child? ==> XStep(m, n, u, a, children[a].id)
  }

  /** The constraints for the prefix of node u, and the children that come next. */
  method ConstrainNode(cs0: seq<Formula>, n: nat, letters: nat, nodes: seq<Node>, u: nat)
      returns (cs: seq<Formula>, children: seq<nat>)
    requires u < |nodes| && |nodes[u].children| == letters
    ensures Adds(cs0, cs, (m: Assignment) => XNode(m, n, letters, nodes, u))
    ensures children == Present(nodes[u].children)
  {
    var all := nodes[u].children;
    cs := ConstrainOneState(cs0, n, u);
    children := [];
    ghost var before := cs;
    for a := 0 to letters
      invariant Adds(before, cs, (m: Assignment) => ChildrenFollow(m, n, u, all, a))
      invariant children == Present(all[..a])
    {
      assert all[..a + 1][..a] == all[..a];
      if all[a].Child? {
        cs := ConstrainStep(cs, n, u, a, all[a].id);
        children := children + [all[a].id];
      }
    }
    assert all[..letters] == all;
    cs := ConstrainAcceptance(cs, n, u, nodes[u].accept);
  }

  /** The nodes already constrained and the queue of those that come next: every node enters once, after its parent. */
  ghost predicate Frontier(nodes: seq<Node>, index: map<Letters, nat>, done: set<nat>, queue: seq<nat>) {
    && (forall u :: u in done ==> u < |nodes|)
    && (forall i :: 0 <= i < |queue| ==> queue[i] < |nodes| && queue[i] !in done)
    && (forall i, j :: 0 <= i < j < |queue| ==> queue[i] != queue[j])
    && (forall v: nat {:trigger ParentDone(nodes, index, done, v)} :: v < |nodes| ==>
         (v in done || v in queue <==> ParentDone(nodes, index, done, v)))
  }

  ghost predicate ParentDone(nodes: seq<Node>, index: map<Letters, nat>, done: set<nat>, v: nat)
    requires v < |nodes|
  {
    var w := nodes[v].word;
    w == [] || (w[..|w| - 1] in index && index[w[..|w| - 1]] in done)
  }

  lemma {:induction false} InPresent(children: seq<Child>, v: nat)
    ensures v in Present(children) <==> exists a :: 0 <= a < |children| && children[a] == Child(v)
  {
    if children != [] {
      var front := children[..|children| - 1];
      InPresent(front, v);
      if a :| 0 <= a < |children| && children[a] == Child(v) {
        assert a < |front| ==> front[a] == Child(v);
      }
    }
  }

  lemma {:induction false} PresentDiffers(children: seq<Child>)
    requires forall a, b :: 0 <= a < b < |children| && children[a].Child? ==> children[a] != children[b]
    ensures forall i, j :: 0 <= i < j < |Present(children)| ==> Present(children)[i] != Present(children)[j]
  {
    if children != [] {
      var front, last := children[..|children| - 1], children[|children| - 1];
      PresentDiffers(front);
      if last.Child? {
        InPresent(front, last.id);
      }
    }
  }

  /** The children of a node are the nodes whose prefix extends its prefix by one letter. */
  lemma ChildrenOf(letters: nat, nodes: seq<Node>, index: map<Letters, nat>, u: nat, v: nat)
    requires IsTree(letters, nodes, index) && u < |nodes|
    ensures v in Present(nodes[u].children) <==>
      v < |nodes| && nodes[v].word != [] && nodes[v].word[..|nodes[v].word| - 1] == nodes[u].word
  {
    InPresent(nodes[u].children, v);
    if v in Present(nodes[u].children) {
      var a :| 0 <= a < letters && nodes[u].children[a] == Child(v);
      assert nodes[u].children[a] == ChildFor(index, nodes[u].word, a);
      assert StoredAt(letters, nodes, index, nodes[u].word + [a]);
      Extend(nodes[u].word, a);
    }
    if v < |nodes| && nodes[v].word != [] && nodes[v].word[..|nodes[v].word| - 1] == nodes[u].word {
      var w := nodes[v].word;
      var a := w[|w| - 1];
      assert StoredAt(letters, nodes, index, w);
      assert w == nodes[u].word + [a];
      assert nodes[u].children[a] == ChildFor(index, nodes[u].word, a);
    }
  }

  lemma ChildrenDiffer(letters: nat, nodes: seq<Node>, index: map<Letters, nat>, u: nat)
    requires IsTree(letters, nodes, index) && u < |nodes|
    ensures forall i, j :: 0 <= i < j < |Present(nodes[u].children)| ==>
        Present(nodes[u].children)[i] != Present(nodes[u].children)[j]
  {
    forall a, b | 0 <= a < b < letters && nodes[u].children[a].Child?
        ensures nodes[u].children[a] != nodes[u].children[b]
    {
      assert nodes[u].children[a] == ChildFor(index, nodes[u].word, a)
          && nodes[u].children[b] == ChildFor(index, nodes[u].word, b);
      Extend(nodes[u].word, a);
      Extend(nodes[u].word, b);
      assert StoredAt(letters, nodes, index, nodes[u].word + [a]);
      assert nodes[u].word + [b] in index ==> StoredAt(letters, nodes, index, nodes[u].word + [b]);
    }
    PresentDiffers(nodes[u].children);
  }

  lemma FrontierStart(letters: nat, nodes: seq<Node>, index: map<Letters, nat>)
    requires IsTree(letters, nodes, index)
    ensures Frontier(nodes, index, {}, [0])
  {
    assert StoredAt(letters, nodes, index, []);
  }

  lemma FrontierStep(letters: nat, nodes: seq<Node>, index: map<Letters, nat>, done: set<nat>, queue: seq<nat>)
    requires IsTree(letters, nodes, index) && Frontier(nodes, index, done, queue) && queue != []
    ensures Frontier(nodes, index, done + {queue[0]}, queue[1..] + Present(nodes[queue[0]].children))
  {
    var u := queue[0];
    var next, done' := Present(nodes[u].children), done + {u};
    ChildrenDiffer(letters, nodes, index, u);
    forall v | v in next ensures v < |nodes| && v !in done' && v !in queue {
      ChildrenOf(letters, nodes, index, u, v);
      assert !ParentDone(nodes, index, done, v);
    }
    var queue' := queue[1..] + next;
    forall i | 0 <= i < |queue'| ensures queue'[i] < |nodes| && queue'[i] !in done' {
      if i < |queue| - 1 {
        assert queue'[i] == queue[i + 1];
      } else {
        assert queue'[i] in next;
      }
    }
    forall v: nat | v < |nodes| ensures v in done' || v in queue[1..] + next <==> ParentDone(nodes, index, done', v) {
      ChildrenOf(letters, nodes, index, u, v);
      var w := nodes[v].word;
      assert StoredAt(letters, nodes, index, w);
      assert w != [] ==> StoredAt(letters, nodes, index, w[..|w| - 1]);
      assert v in queue <==> v == u || v in queue[1..];
      assert ParentDone(nodes, index, done', v) <==> ParentDone(nodes, index, done, v) || v in next;
    }
  }

  lemma {:induction false} FrontierEnd(letters: nat, nodes: seq<Node>, index: map<Letters, nat>, done: set<nat>, v: nat)
    requires IsTree(letters, nodes, index) && Frontier(nodes, index, done, []) && v < |nodes|
    ensures v in done
    decreases |nodes[v].word|
  {
    var w := nodes[v].word;
    assert StoredAt(letters, nodes, index, w);
    if w != [] {
      assert StoredAt(letters, nodes, index, w[..|w| - 1]);
      FrontierEnd(letters, nodes, index, done, index[w[..|w| - 1]]);
    }
    assert ParentDone(nodes, index, done, v);
  }

  /** The constraints of the nodes visited so far. */
  ghost predicate NodesHold(m: Assignment, n: nat, letters: nat, nodes: seq<Node>, done: set<nat>)
    requires forall u :: 0 <= u < |nodes| ==> |nodes[u].children| == letters
  {
    forall u {:trigger XNode(m, n, letters, nodes, u)} :: u in done && u < |nodes| ==> XNode(m, n, letters, nodes, u)
  }

  /** The breadth-first walk over the prefix tree. */
  method ConstrainPrefixes(cs0: seq<Formula>, n: nat, letters: nat, nodes: seq<Node>, ghost index: map<Letters, nat>)
      returns (cs: seq<Formula>)
    requires IsTree(letters, nodes, index)
    ensures Adds(cs0, cs, (m: Assignment) => XHolds(m, n, letters, nodes))
  {
    cs := ConstrainRoot(cs0, n);
    ghost var before, done: set<nat> := cs, {};
    var prefixes: seq<nat> := [0];
    FrontierStart(letters, nodes, index);
    while prefixes != []
      invariant Frontier(nodes, index, done, prefixes)
      invariant Adds(before, cs, (m: Assignment) => NodesHold(m, n, letters, nodes, done))
      decreases Numbers(|nodes|) - done
    {
      var prefix := prefixes[0];
      FrontierStep(letters, nodes, index, done, prefixes);
      var children;
      cs, children := ConstrainNode(cs, n, letters, nodes, prefix);
      prefixes := prefixes[1..] + children;
      done := done + {prefix};
    }
    forall v: nat | v < |nodes| ensures v in done {
      FrontierEnd(letters, nodes, index, done, v);
    }
    forall m ensures NodesHold(m, n, letters, nodes, done) <==>
        (forall u :: 0 <= u < |nodes| ==> XNode(m, n, letters, nodes, u)) {}
  }

  // ----- the antecedents -----

  method AntecedentFormula(n: nat, u: nat) returns (f: Formula)
    ensures forall m {:trigger f.Eval(m)} :: f.Eval(m) <==> Antecedent(m, n, u)
  {
    var part := (q: nat) => Both(X(u, q), F(q));
    assert forall q: nat {:trigger X(u, q)} :: part(q) == Both(X(u, q), F(q));
    f := AnyOf(n, part);
  }

  // ----- y -----

  /** The transitions between the reachable states, with their sources. */
  method ReadArrows(g: Graph) returns (states: set<State>, arrows: set<Arrow>)
    requires g.Valid()
    ensures states == g.ReachableStates() && arrows == Arrows(g)
  {
    states := FindStates(g);
    arrows := set s, t | s in states && t in g.Out(s) :: (s, t);
  }

  lemma ArrowsAreReadable(alphabet: seq<Char>, g: Graph)
    requires ReadableOver(alphabet, g)
    ensures forall e {:trigger e in Arrows(g)} :: e in Arrows(g) ==>
        e.1.min in alphabet && e.0 in g.trans && e.1 in g.trans[e.0] && e.1.to in g.ReachableStates()
  {
    forall e | e in Arrows(g) ensures e.1.to in g.ReachableStates() {
      ReachableStep(g, e.0, e.1);
    }
  }

  method ConstrainYStep(cs0: seq<Formula>, n: nat, alphabet: seq<Char>, i: nat, e: Arrow) returns (cs: seq<Formula>)
    requires e.1.min in alphabet
    ensures Adds(cs0, cs, (m: Assignment) => YStep(m, n, alphabet, i, e))
  {
    var a, s, t := Index(alphabet, e.1.min), e.0, e.1.to;
    var part := (p: nat, q: nat) => Leads(Y(i, p, s), D(p, a, q), Y(i, q, t));
    assert forall p: nat, q: nat {:trigger Y(i, p, s), D(p, a, q)} ::
        part(p, q) == Leads(Y(i, p, s), D(p, a, q), Y(i, q, t));
    cs := AddGrid(cs0, n, n, part);
  }

  /** The conjunction over the accepting states of both automata. */
  method ConsequenceOfAll(n: nat, i: nat, accepts: set<State>) returns (f: Formula)
    ensures forall m {:trigger f.Eval(m)} :: f.Eval(m) <==> YAccept(m, n, i, accepts)
  {
    f := True;
    for q := 0 to n
      invariant forall m {:trigger f.Eval(m)} :: f.Eval(m) <==> YAccept(m, q, i, accepts)
    {
      var todo := accepts;
      ghost var before := f;
      while todo != {}
        invariant todo <= accepts
        invariant forall m {:trigger f.Eval(m)} :: f.Eval(m) <==> before.Eval(m) && forall s ::
            s in accepts - todo && m(Y(i, q, s)) ==> m(F(q))
      {
        var s :| s in todo;
        ghost var more := accepts - todo;
        todo := todo - {s};
        f := And(f, LeadsOne(Y(i, q, s), F(q)));
        assert accepts - todo == more + {s};
      }
      assert accepts - todo == accepts;
    }
  }

  method ConstrainY(cs0: seq<Formula>, n: nat, alphabet: seq<Char>, i: nat, g: Graph, u: nat) returns (cs: seq<Formula>)
    requires ReadableOver(alphabet, g)
    ensures Adds(cs0, cs, (m: Assignment) => YHolds(m, n, alphabet, i, g, u))
  {
    var states, arrows := ReadArrows(g);
    ArrowsAreReadable(alphabet, g);
    AddsOne(cs0, Lit(Y(i, 0, g.initial)));
    cs := cs0 + [Lit(Y(i, 0, g.initial))];
    ghost var before := cs;
    var todo := arrows;
    while todo != {}
      invariant todo <= arrows
      invariant Adds(before, cs, (m: Assignment) => forall e :: e in arrows - todo ==> YStep(m, n, alphabet, i, e))
    {
      var e :| e in todo;
      ghost var more := arrows - todo;
      todo := todo - {e};
      cs := ConstrainYStep(cs, n, alphabet, i, e);
      assert arrows - todo == more + {e};
    }
    assert arrows - todo == arrows;
    ghost var steps := cs;
    var ante := AntecedentFormula(n, u);
    var cons := ConsequenceOfAll(n, i, states * g.accept);
    AddsOne(cs, Implies(ante, cons));
    cs := cs + [Implies(ante, cons)];
    forall m ensures Models(cs, m) <==> Models(cs0, m) && YHolds(m, n, alphabet, i, g, u) {
      assert Models(steps, m) <==> Models(before, m) && YSteps(m, n, alphabet, i, g);
      assert Lit(Y(i, 0, g.initial)).Eval(m) <==> m(Y(i, 0, g.initial));
      assert Implies(ante, cons).Eval(m) <==>
          (Antecedent(m, n, u) ==> YAccept(m, n, i, g.ReachableStates() * g.accept));
    }
  }

  // ----- z -----

  method ConstrainZStep(cs0: seq<Formula>, n: nat, alphabet: seq<Char>, i: nat, e: Arrow, bound: nat)
      returns (cs: seq<Formula>)
    requires e.1.min in alphabet && bound > 0
    ensures Adds(cs0, cs, (m: Assignment) => ZStep(m, n, alphabet, i, e, bound))
  {
    var a, s, t := Index(alphabet, e.1.min), e.0, e.1.to;
    cs := cs0;
    for p := 0 to n
      invariant Adds(cs0, cs, (m: Assignment) => ZStepTo(m, p, n, alphabet, i, e, bound))
    {
      ghost var before := cs;
      var part := (q: nat, l: nat) => Leads(Z(i, p, s, l), D(p, a, q), Z(i, q, t, l + 1));
      assert forall q: nat, l: nat {:trigger Z(i, p, s, l), D(p, a, q)} ::
          part(q, l) == Leads(Z(i, p, s, l), D(p, a, q), Z(i, q, t, l + 1));
      cs := AddGrid(cs, n, bound - 1, part);
    }
  }

  /** ZStep for the first k source states. */
  ghost predicate ZStepTo(m: Assignment, k: nat, n: nat, alphabet: seq<Char>, i: nat, e: Arrow, bound: nat)
    requires e.1.min in alphabet
  {
    forall p: nat, q: nat, l: nat {:trigger m(Z(i, p, e.0, l)), m(D(p, Index(alphabet, e.1.min), q))} ::
      p < k && q < n && l + 1 < bound && m(Z(i, p, e.0, l)) && m(D(p, Index(alphabet, e.1.min), q)) ==>
        m(Z(i, q, e.1.to, l + 1))
  }

  /** The disjunction over the transitions into s, and whether there are any. */
  method ReverseTransition(n: nat, alphabet: seq<Char>, i: nat, arrows: set<Arrow>, q: nat, s: State, l: nat)
      returns (f: Formula, hadtransitions: bool)
    requires forall e :: e in arrows ==> e.1.min in alphabet
    ensures forall m {:trigger f.Eval(m)} :: f.Eval(m) <==> ZExplained(m, n, alphabet, i, arrows, q, s, l)
    ensures hadtransitions <==> exists e :: e in arrows && e.1.to == s
  {
    f, hadtransitions := False, false;
    var todo := arrows;
    while todo != {}
      invariant todo <= arrows
      invariant forall m {:trigger f.Eval(m)} :: f.Eval(m) <==> ZExplained(m, n, alphabet, i, arrows - todo, q, s, l)
      invariant hadtransitions <==> exists e :: e in arrows - todo && e.1.to == s
    {
      var e :| e in todo;
      ghost var more := arrows - todo;
      todo := todo - {e};
      assert arrows - todo == more + {e};
      if e.1.to == s {
        hadtransitions := true;
        ghost var before := f;
        f := OrExplained(f, n, alphabet, i, e, q, l);
      }
    }
    assert arrows - todo == arrows;
  }

  method OrExplained(f0: Formula, n: nat, alphabet: seq<Char>, i: nat, e: Arrow, q: nat, l: nat) returns (f: Formula)
    requires e.1.min in alphabet
    ensures forall m {:trigger f.Eval(m)} :: f.Eval(m) <==> f0.Eval(m) || ExplainedBy(m, n, alphabet, i, e, q, l)
  {
    f := f0;
    var a := Index(alphabet, e.1.min);
    for p := 0 to n
      invariant forall m {:trigger f.Eval(m)} :: f.Eval(m) <==> f0.Eval(m) || ExplainedBy(m, p, alphabet, i, e, q, l)
    {
      f := Or(f, Both(D(p, a, q), Z(i, p, e.0, l)));
    }
  }

  method ConstrainZBackStep(cs0: seq<Formula>, n: nat, alphabet: seq<Char>, i: nat, arrows: set<Arrow>, q: nat,
      s: State, l: nat) returns (cs: seq<Formula>)
    requires forall e :: e in arrows ==> e.1.min in alphabet
    ensures Adds(cs0, cs, (m: Assignment) => ZBackStep(m, n, alphabet, i, arrows, q, s, l))
  {
    var reverse, hadtransitions := ReverseTransition(n, alphabet, i, arrows, q, s, l);
    var f := if hadtransitions then Implies(Lit(Z(i, q, s, l + 1)), reverse) else Deny(Z(i, q, s, l + 1));
    AddsOne(cs0, f);
    cs := cs0 + [f];
    forall m ensures f.Eval(m) <==> ZBackStep(m, n, alphabet, i, arrows, q, s, l) {
      assert hadtransitions ==> (f.Eval(m) <==> (m(Z(i, q, s, l + 1)) ==> reverse.Eval(m)));
    }
  }

  ghost predicate ForwardHolds(m: Assignment, n: nat, alphabet: seq<Char>, i: nat, arrows: set<Arrow>, bound: nat)
    requires forall e :: e in arrows ==> e.1.min in alphabet
  {
    forall e :: e in arrows ==> ZStep(m, n, alphabet, i, e, bound)
  }

  ghost predicate BackwardHolds(m: Assignment, n: nat, alphabet: seq<Char>, i: nat, arrows: set<Arrow>, s: State,
      bound: nat)
    requires forall e :: e in arrows ==> e.1.min in alphabet
  {
    forall q: nat, l: nat {:trigger ZBackStep(m, n, alphabet, i, arrows, q, s, l)} ::
      q < n && l + 1 < bound ==> ZBackStep(m, n, alphabet, i, arrows, q, s, l)
  }

  method ConstrainForward(cs0: seq<Formula>, n: nat, alphabet: seq<Char>, i: nat, arrows: set<Arrow>, bound: nat)
      returns (cs: seq<Formula>)
    requires bound > 0 && forall e :: e in arrows ==> e.1.min in alphabet
    ensures Adds(cs0, cs, (m: Assignment) => ForwardHolds(m, n, alphabet, i, arrows, bound))
  {
    cs := cs0;
    var todo := arrows;
    while todo != {}
      invariant todo <= arrows
      invariant Adds(cs0, cs, (m: Assignment) => ForwardHolds(m, n, alphabet, i, arrows - todo, bound))
    {
      var e :| e in todo;
      ghost var more := arrows - todo;
      todo := todo - {e};
      cs := ConstrainZStep(cs, n, alphabet, i, e, bound);
      assert arrows - todo == more + {e};
    }
    assert arrows - todo == arrows;
  }

  method ConstrainBackward(cs0: seq<Formula>, n: nat, alphabet: seq<Char>, i: nat, arrows: set<Arrow>, s: State,
      bound: nat) returns (cs: seq<Formula>)
    requires bound > 0 && forall e :: e in arrows ==> e.1.min in alphabet
    ensures Adds(cs0, cs, (m: Assignment) => BackwardHolds(m, n, alphabet, i, arrows, s, bound))
  {
    cs := cs0;
    for q := 0 to n
      invariant Adds(cs0, cs, (m: Assignment) => forall r: nat,
          l: nat {:trigger ZBackStep(m, n, alphabet, i, arrows, r, s, l)} ::
                  r < q && l + 1 < bound ==> ZBackStep(m, n, alphabet, i, arrows, r, s, l))
    {
      ghost var before := cs;
      for l := 0 to bound - 1
        invariant Adds(before, cs, (m: Assignment) =>
          forall h: nat {:trigger ZBackStep(m, n, alphabet, i, arrows, q, s, h)} ::
                    h < l ==> ZBackStep(m, n, alphabet, i, arrows, q, s, h))
      {
        cs := ConstrainZBackStep(cs, n, alphabet, i, arrows, q, s, l);
      }
    }
  }

  /** No state is reached by the empty word but the initial ones. */
  method ConstrainStart(cs0: seq<Formula>, n: nat, i: nat, g: Graph, states: set<State>) returns (cs: seq<Formula>)
    requires states == g.ReachableStates()
    ensures Adds(cs0, cs, (m: Assignment) => ZStart(m, n, i, g))
  {
    AddsOne(cs0, Lit(Z(i, 0, g.initial, 0)));
    cs := cs0 + [Lit(Z(i, 0, g.initial, 0))];
    ghost var before := cs;
    var todo := states;
    while todo != {}
      invariant todo <= states
      invariant Adds(before, cs, (m: Assignment) => forall s, q: nat {:trigger Z(i, q, s, 0)} ::
          s in states - todo && q < n && !(s == g.initial && q == 0) ==> !m(Z(i, q, s, 0)))
    {
      var s :| s in todo;
      ghost var more := states - todo;
      todo := todo - {s};
      cs := ExcludeStart(cs, n, i, g, s);
      assert states - todo == more + {s};
    }
    assert states - todo == states;
    forall m ensures Models(cs, m) <==> Models(cs0, m) && ZStart(m, n, i, g) {
      assert Lit(Z(i, 0, g.initial, 0)).Eval(m) <==> m(Z(i, 0, g.initial, 0));
    }
  }

  method ExcludeStart(cs0: seq<Formula>, n: nat, i: nat, g: Graph, s: State) returns (cs: seq<Formula>)
    ensures Adds(cs0, cs, (m: Assignment) => forall q: nat {:trigger Z(i, q, s, 0)} ::
        q < n && !(s == g.initial && q == 0) ==> !m(Z(i, q, s, 0)))
  {
    cs := cs0;
    for q := 0 to n
      invariant Adds(cs0, cs, (m: Assignment) => forall p: nat {:trigger Z(i, p, s, 0)} ::
          p < q && !(s == g.initial && p == 0) ==> !m(Z(i, p, s, 0)))
    {
      if s == g.initial && q == 0 {
        continue;
      }
      AddsOne(cs, Deny(Z(i, q, s, 0)));
      cs := cs + [Deny(Z(i, q, s, 0))];
    }
  }

  function LeavingFrom(arrows: set<Arrow>, states: set<State>): set<Arrow> {
    set e | e in arrows && e.0 in states
  }

  ghost predicate StatesHold(m: Assignment, n: nat, alphabet: seq<Char>, i: nat, arrows: set<Arrow>, states: set<State>,
      bound: nat)
    requires forall e :: e in arrows ==> e.1.min in alphabet
  {
    && ForwardHolds(m, n, alphabet, i, LeavingFrom(arrows, states), bound)
    && forall s {:trigger BackwardHolds(m, n, alphabet, i, arrows, s, bound)} :: s in states ==>
         BackwardHolds(m, n, alphabet, i, arrows, s, bound)
  }

  /** The loop over the states of the consequence automaton: transitions and reverse transitions. */
  method ConstrainStates(cs0: seq<Formula>, n: nat, alphabet: seq<Char>, i: nat, arrows: set<Arrow>, states: set<State>,
      bound: nat) returns (cs: seq<Formula>)
    requires bound > 0 && forall e :: e in arrows ==> e.1.min in alphabet
    ensures Adds(cs0, cs, (m: Assignment) => StatesHold(m, n, alphabet, i, arrows, states, bound))
  {
    cs := cs0;
    var todo := states;
    while todo != {}
      invariant todo <= states
      invariant Adds(cs0, cs, (m: Assignment) => StatesHold(m, n, alphabet, i, arrows, states - todo, bound))
    {
      var s :| s in todo;
      ghost var before, more := cs, states - todo;
      todo := todo - {s};
      cs := ConstrainForward(cs, n, alphabet, i, LeavingFrom(arrows, {s}), bound);
      ghost var half := cs;
      cs := ConstrainBackward(cs, n, alphabet, i, arrows, s, bound);
      assert states - todo == more + {s};
      forall m ensures Models(cs, m) <==>
          Models(before, m) && ForwardHolds(m, n, alphabet, i, LeavingFrom(arrows, {s}), bound)
          && BackwardHolds(m, n, alphabet, i, arrows, s, bound) {}
      OneMoreState(n, alphabet, i, arrows, more, s, bound);
    }
    assert states - todo == states;
  }

  lemma OneMoreState(n: nat, alphabet: seq<Char>, i: nat, arrows: set<Arrow>, states: set<State>, s: State, bound: nat)
    requires forall e :: e in arrows ==> e.1.min in alphabet
    ensures forall m {:trigger StatesHold(m, n, alphabet, i, arrows, states + {s}, bound)} ::
      StatesHold(m, n, alphabet, i, arrows, states + {s}, bound)
      <==> StatesHold(m, n, alphabet, i, arrows, states, bound)
           && ForwardHolds(m, n, alphabet, i, LeavingFrom(arrows, {s}), bound)
                && BackwardHolds(m, n, alphabet, i, arrows, s, bound)
  {
    assert LeavingFrom(arrows, states + {s}) == LeavingFrom(arrows, states) + LeavingFrom(arrows, {s});
  }

  /** The disjunction over the accepting states of both automata and all lengths. */
  method ConsequenceOfSome(n: nat, i: nat, accepts: set<State>, bound: nat) returns (f: Formula)
    ensures forall m {:trigger f.Eval(m)} :: f.Eval(m) <==> ZFound(m, n, i, accepts, bound)
  {
    f := False;
    for q := 0 to n
      invariant forall m {:trigger f.Eval(m)} :: f.Eval(m) <==> ZFound(m, q, i, accepts, bound)
    {
      var todo := accepts;
      ghost var before := f;
      while todo != {}
        invariant todo <= accepts
        invariant forall m {:trigger f.Eval(m)} :: f.Eval(m) <==> before.Eval(m) || exists s, l: nat ::
            s in accepts - todo && l < bound && m(Z(i, q, s, l)) && m(F(q))
      {
        var s :| s in todo;
        ghost var more := accepts - todo;
        todo := todo - {s};
        f := OrFound(f, q, i, s, bound);
        assert accepts - todo == more + {s};
      }
      assert accepts - todo == accepts;
    }
  }

  method OrFound(f0: Formula, q: nat, i: nat, s: State, bound: nat) returns (f: Formula)
    ensures forall m {:trigger f.Eval(m)} :: f.Eval(m) <==> f0.Eval(m) || exists l: nat ::
        l < bound && m(Z(i, q, s, l)) && m(F(q))
  {
    f := f0;
    for l := 0 to bound
      invariant forall m {:trigger f.Eval(m)} :: f.Eval(m) <==> f0.Eval(m) || exists h: nat ::
          h < l && m(Z(i, q, s, h)) && m(F(q))
    {
      f := Or(f, Both(Z(i, q, s, l), F(q)));
    }
  }

  method ConstrainZ(cs0: seq<Formula>, n: nat, alphabet: seq<Char>, i: nat, g: Graph, u: nat, bound: nat)
      returns (cs: seq<Formula>)
    requires ReadableOver(alphabet, g) && bound > 0
    ensures Adds(cs0, cs, (m: Assignment) => ZHolds(m, n, alphabet, i, g, u, bound))
  {
    var states, arrows := ReadArrows(g);
    ArrowsAreReadable(alphabet, g);
    cs := ConstrainStart(cs0, n, i, g, states);
    ghost var start := cs;
    cs := ConstrainStates(cs, n, alphabet, i, arrows, states, bound);
    ghost var steps := cs;
    var ante := AntecedentFormula(n, u);
    var cons := ConsequenceOfSome(n, i, states * g.accept, bound);
    AddsOne(cs, Implies(ante, cons));
    cs := cs + [Implies(ante, cons)];
    assert LeavingFrom(arrows, states) == arrows;
    forall m ensures Models(cs, m) <==> Models(cs0, m) && ZHolds(m, n, alphabet, i, g, u, bound) {
      assert Models(steps, m) <==> Models(start, m) && ZSteps(m, n, alphabet, i, g, bound) && ZBackSteps(m, n, alphabet,
          i, g, bound) by {
        BothDirections(m, n, alphabet, i, g, bound);
      }
      assert Implies(ante, cons).Eval(m) <==>
          (Antecedent(m, n, u) ==> ZFound(m, n, i, g.ReachableStates() * g.accept, bound));
    }
  }

  lemma BothDirections(m: Assignment, n: nat, alphabet: seq<Char>, i: nat, g: Graph, bound: nat)
    requires ReadableOver(alphabet, g)
    ensures StatesHold(m, n, alphabet, i, Arrows(g), g.ReachableStates(), bound)
      <==> ZSteps(m, n, alphabet, i, g, bound) && ZBackSteps(m, n, alphabet, i, g, bound)
  {
    var arrows, states := Arrows(g), g.ReachableStates();
    assert LeavingFrom(arrows, states) == arrows;
    if ZBackSteps(m, n, alphabet, i, g, bound) {
      forall s | s in states ensures BackwardHolds(m, n, alphabet, i, arrows, s, bound) {}
    }
    if StatesHold(m, n, alphabet, i, arrows, states, bound) {
      forall s, q: nat, l: nat | s in states && q < n && l + 1 < bound
          ensures ZBackStep(m, n, alphabet, i, arrows, q, s, l)
      {
        assert BackwardHolds(m, n, alphabet, i, arrows, s, bound);
      }
    }
  }
}
