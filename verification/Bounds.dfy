/** How long an existential witness has to be, and what that means for the number of states the learner needs. */
module Bounds {
  import opened Languages
  import opened Equivalence
  import opened PrefixTrees
  import opened Encoding
  import Constraints
  import opened Counting

  // ----- counting -----

  ghost function Grid(n: nat, s: set<State>): set<(nat, State)> {
    set p: nat, q | p < n && q in s :: (p, q)
  }

  ghost function Line(p: nat, s: set<State>): set<(nat, State)> {
    set q | q in s :: (p, q)
  }

  lemma {:induction false} LineSize(p: nat, s: set<State>)
    ensures |Line(p, s)| == |s|
  {
    if s == {} {
      assert Line(p, s) == {};
    } else {
      var q :| q in s;
      LineSize(p, s - {q});
      assert Line(p, s) == Line(p, s - {q}) + {(p, q)};
    }
  }

  lemma {:induction false} GridSize(n: nat, s: set<State>)
    ensures |Grid(n, s)| == n * |s|
  {
    if n == 0 {
      assert Grid(n, s) == {};
    } else {
      GridSize(n - 1, s);
      LineSize(n - 1, s);
      assert Grid(n, s) == Grid(n - 1, s) + Line(n - 1, s);
      assert Grid(n - 1, s) !! Line(n - 1, s);
      assert n * |s| == (n - 1) * |s| + |s|;
    }
  }

  // ----- shortening a common word -----

  /** The states passed on an accepting run. */
  lemma {:induction false} Path(g: Graph, q: State, v: Word) returns (path: seq<State>)
    requires g.Accepts(q, v)
    ensures |path| == |v| + 1
    ensures forall i :: 0 <= i <= |v| ==> g.Reaches(q, v[..i], path[i]) && g.Accepts(path[i], v[i..])
    decreases |v|
  {
    if v == [] {
      path := [q];
    } else {
      var p :| p in g.Succ(q, v[0]) && g.Accepts(p, v[1..]);
      var rest := Path(g, p, v[1..]);
      path := [q] + rest;
      forall i | 0 <= i <= |v| ensures g.Reaches(q, v[..i], path[i]) && g.Accepts(path[i], v[i..]) {
        if i > 0 {
          assert v[..i][1..] == v[1..][..i - 1] && v[i..] == v[1..][i - 1..];
          assert g.Reaches(p, v[1..][..i - 1], rest[i - 1]);
        } else {
          assert v[..0] == [] && v[0..] == v;
        }
      }
    }
  }

  /** Two words that take the table to the same state may be exchanged in front of a third. */
  lemma ExchangeFront(alphabet: seq<Char>, t: Table, a: Word, b: Word, c: Word)
    requires t.Valid() && t.Size() > 0 && t.letters == |alphabet| && Over(alphabet, a) && Over(alphabet, b)
        && Over(alphabet, c)
    requires Run(t, 0, Encode(alphabet, a)) == Run(t, 0, Encode(alphabet, b))
    ensures Holds(alphabet, t, a + c) <==> Holds(alphabet, t, b + c)
  {
    RunOfConcat(alphabet, t, a, c);
    RunOfConcat(alphabet, t, b, c);
  }

  lemma RunOfConcat(alphabet: seq<Char>, t: Table, a: Word, c: Word)
    requires t.Valid() && t.Size() > 0 && t.letters == |alphabet| && Over(alphabet, a) && Over(alphabet, c)
    ensures Holds(alphabet, t, a + c) <==> t.accept[Run(t, Run(t, 0, Encode(alphabet, a)), Encode(alphabet, c))]
  {
    assert Encode(alphabet, a + c) == Encode(alphabet, a) + Encode(alphabet, c);
    RunConcat(t, 0, Encode(alphabet, a), Encode(alphabet, c));
    AcceptsByRun(t, 0, Encode(alphabet, a + c));
  }

  /** Cutting out a loop of the product of automaton and table keeps the word in both languages. */
  lemma CutLoop(alphabet: seq<Char>, t: Table, g: Graph, v: Word, path: seq<State>, i: nat, j: nat)
    requires t.Valid() && t.Size() > 0 && t.letters == |alphabet| && Over(alphabet, v) && i < j <= |v|
        && |path| == |v| + 1
    requires g.Reaches(g.initial, v[..i], path[i]) && g.Accepts(path[j], v[j..]) && path[i] == path[j]
    requires Over(alphabet, v[..i]) && Over(alphabet, v[..j])
    requires Run(t, 0, Encode(alphabet, v[..i])) == Run(t, 0, Encode(alphabet, v[..j]))
    requires Holds(alphabet, t, v)
    ensures g.Language(v[..i] + v[j..]) && Holds(alphabet, t, v[..i] + v[j..])
  {
    ReachesThenAccepts(g, g.initial, v[..i], path[i], v[j..]);
    assert v == v[..j] + v[j..];
    ExchangeFront(alphabet, t, v[..i], v[..j], v[j..]);
  }

  lemma Shorter(alphabet: seq<Char>, t: Table, g: Graph, states: set<State>, v: Word) returns (u: Word)
    requires t.Valid() && t.Size() > 0 && t.letters == |alphabet|
    requires g.initial in states && Closed(g, states) && g.Language(v) && Holds(alphabet, t, v)
    requires |v| >= t.Size() * |states|
    ensures |u| < |v| && g.Language(u) && Holds(alphabet, t, u)
  {
    var path := Path(g, g.initial, v);
    var f := seq(|v| + 1, i requires 0 <= i <= |v| => (Run(t, 0, Encode(alphabet, v[..i])), path[i]));
    forall h | 0 <= h < |f| ensures f[h] in Grid(t.Size(), states) {
      ClosedHoldsReached(g, states, g.initial, v[..h], path[h]);
    }
    GridSize(t.Size(), states);
    var i, j := Pigeonhole(f, Grid(t.Size(), states));
    CutLoop(alphabet, t, g, v, path, i, j);
    u := v[..i] + v[j..];
  }

  /** A word in both languages has one shorter than the product of the two sizes. */
  lemma {:induction false} ShortWitness(alphabet: seq<Char>, t: Table, g: Graph, states: set<State>, v: Word)
      returns (u: Word)
    requires t.Valid() && t.Size() > 0 && t.letters == |alphabet|
    requires g.initial in states && Closed(g, states) && g.Language(v) && Holds(alphabet, t, v)
    ensures |u| <= t.Size() * |states| - 1 && g.Language(u) && Holds(alphabet, t, u)
    decreases |v|
  {
    if |v| < t.Size() * |states| {
      u := v;
    } else {
      u := Shorter(alphabet, t, g, states, v);
      u := ShortWitness(alphabet, t, g, states, u);
    }
  }

  // ----- one more state is always enough -----

  /** The same automaton with an extra state that is never reached. */
  function Pad(t: Table): Table
    requires t.Valid()
  {
    Table(t.letters, t.next + [seq(t.letters, _ => t.Size())], t.accept + [false])
  }

  lemma {:induction false} PadAccepts(t: Table, q: nat, u: Letters)
    requires t.Valid() && q < t.Size()
    ensures Pad(t).Valid() && (Pad(t).Accepts(q, u) <==> t.Accepts(q, u))
    decreases |u|
  {
    if u != [] && u[0] < t.letters {
      PadAccepts(t, t.next[q][u[0]], u[1..]);
    }
  }

  lemma PadHolds(alphabet: seq<Char>, t: Table, w: Word)
    requires t.Valid() && t.Size() > 0
    ensures Pad(t).Valid() && (Holds(alphabet, Pad(t), w) <==> Holds(alphabet, t, w))
  {
    PadAccepts(t, 0, []);
    if Over(alphabet, w) {
      PadAccepts(t, 0, Encode(alphabet, w));
    }
  }

  lemma ReadIsClosed(g: Graph)
    requires g.Valid()
    ensures g.initial in g.ReachableStates() && Closed(Read(g), g.ReachableStates())
  {
    forall q, t | q in g.ReachableStates() && t in Read(g).trans[q] ensures t.to in g.ReachableStates() {
      var e :| e in g.trans[q] && t == Transition(e.min, e.min, e.to);
      ReachableStep(g, q, e);
    }
  }

  lemma PadWitnessed(alphabet: seq<Char>, t: Table, c: CounterExample, v: Word)
    requires t.Valid() && t.Size() > 0 && t.letters == |alphabet| && c.a.Valid()
    requires Read(c.a).Language(v) && Holds(alphabet, t, v)
    ensures Pad(t).Valid() && Witnessed(alphabet, Pad(t), Read(c.a), ZBound(t.Size() + 1, c.a))
  {
    var states := c.a.ReachableStates();
    ReadIsClosed(c.a);
    var u := ShortWitness(alphabet, t, Read(c.a), states, v);
    PadHolds(alphabet, t, u);
    assert |states| >= 1;
    assert (t.Size() + 1) * |states| == t.Size() * |states| + |states|;
  }

  /** If a k-state automaton agrees with the sample, however long its witnesses are, then the encoding has a model for
      k+1 states. */
  lemma OneMoreStateSuffices(alphabet: seq<Char>, t: Table, s: SampleData)
    requires t.Valid() && t.Size() > 0 && t.letters == |alphabet| && SampleOver(alphabet, s) && Agrees(alphabet, t, s)
    ensures IsDfa(Pad(t), t.Size() + 1, |alphabet|) && AgreesWithin(alphabet, Pad(t), s)
  {
    PadAccepts(t, 0, []);
    forall w ensures Holds(alphabet, Pad(t), w) <==> Holds(alphabet, t, w) {
      PadHolds(alphabet, t, w);
    }
    forall c | c in s.ex && Holds(alphabet, Pad(t), c.u)
        ensures Witnessed(alphabet, Pad(t), Read(c.a), ZBound(t.Size() + 1, c.a))
    {
      var v :| Read(c.a).Language(v) && Holds(alphabet, t, v);
      PadWitnessed(alphabet, t, c, v);
    }
  }

  lemma PadAgrees(alphabet: seq<Char>, t: Table, s: SampleData)
    requires t.Valid() && t.Size() > 0 && t.letters == |alphabet| && Agrees(alphabet, t, s)
    ensures IsDfa(Pad(t), t.Size() + 1, |alphabet|) && Agrees(alphabet, Pad(t), s)
  {
    PadAccepts(t, 0, []);
    forall w ensures Holds(alphabet, Pad(t), w) <==> Holds(alphabet, t, w) {
      PadHolds(alphabet, t, w);
    }
    forall c | c in s.ex && Holds(alphabet, Pad(t), c.u)
        ensures exists v :: Read(c.a).Language(v) && Holds(alphabet, Pad(t), v)
    {
      var v :| Read(c.a).Language(v) && Holds(alphabet, t, v);
    }
  }

  /** If a k-state automaton agrees with the sample, the encoding has models for every number of states beyond k. */
  lemma {:induction false} MoreStatesSuffice(alphabet: seq<Char>, t: Table, s: SampleData, n: nat) returns (u: Table)
    requires t.Valid() && t.Size() > 0 && t.letters == |alphabet| && SampleOver(alphabet, s) && Agrees(alphabet, t, s)
    requires n > t.Size()
    ensures IsDfa(u, n, |alphabet|) && AgreesWithin(alphabet, u, s)
    decreases n - t.Size()
  {
    if n == t.Size() + 1 {
      OneMoreStateSuffices(alphabet, t, s);
      u := Pad(t);
    } else {
      PadAgrees(alphabet, t, s);
      u := MoreStatesSuffice(alphabet, Pad(t), s, n);
    }
  }

  lemma AgreeingWithinAgrees(alphabet: seq<Char>, t: Table, s: SampleData)
    requires t.Valid() && t.Size() > 0 && AgreesWithin(alphabet, t, s)
    ensures Agrees(alphabet, t, s)
  {
    forall c | c in s.ex && Holds(alphabet, t, c.u) ensures exists v :: Read(c.a).Language(v) && Holds(alphabet, t, v) {
      assert Witnessed(alphabet, t, Read(c.a), ZBound(t.Size(), c.a));
    }
  }

  // ----- the bound n*na-2 is one too small for n states -----

  /** One letter; a word automaton for "a"; the sample accepts "" and asks for some accepted word of that automaton. */
  const ONE_LETTER: seq<Char> := [97]

  const WORD_A: Graph := Graph(0, {1}, map[0 := {Transition(97, 97, 1)}, 1 := {}])

  const TIGHT: SampleData := SampleData([[]], [], [], [CounterExample([], WORD_A)])

  const ACCEPT_ALL: Table := Table(1, [[0]], [true])

  lemma WordAStates()
    ensures WORD_A.Valid() && WORD_A.ReachableStates() == {0, 1}
  {
    var e := Transition(97, 97, 1);
    assert e in WORD_A.trans[0];
    assert WORD_A.Reachable(0);
    ReachableStep(WORD_A, 0, e);
  }

  /** A one-state automaton agrees with this sample, yet no one-state automaton agrees within the bound: the constraints
      for n = 1 have no model. */
  lemma AgreeingIsNotEnough(nodes: seq<Node>, index: map<Letters, nat>)
    requires Constraints.TreeOf(ONE_LETTER, TIGHT, nodes, index)
    ensures IsDfa(ACCEPT_ALL, 1, 1) && Agrees(ONE_LETTER, ACCEPT_ALL, TIGHT)
    ensures !exists m :: Constraints.Holding(m, 1, ONE_LETTER, TIGHT, nodes, index)
  {
    WordAStates();
    AcceptAllAgrees();
    Constraints.SatisfiableIffAgreeing(1, ONE_LETTER, TIGHT, nodes, index);
    forall t | IsDfa(t, 1, 1) ensures !AgreesWithin(ONE_LETTER, t, TIGHT) {
      assert CounterExample([], WORD_A) in TIGHT.ex && [] in TIGHT.pos;
      assert !Witnessed(ONE_LETTER, t, Read(WORD_A), ZBound(1, WORD_A));
    }
  }

  lemma AcceptAllAgrees()
    ensures ACCEPT_ALL.Valid() && Agrees(ONE_LETTER, ACCEPT_ALL, TIGHT)
  {
    var t := ACCEPT_ALL;
    assert Encode(ONE_LETTER, []) == [];
    var v: Word := [97];
    assert Transition(97, 97, 1) in Read(WORD_A).trans[0] by {
      assert Transition(97, 97, 1) in WORD_A.trans[0];
    }
    assert v[1..] == [] && 1 in Read(WORD_A).Succ(0, 97);
    assert Read(WORD_A).Accepts(1, v[1..]);
    assert Read(WORD_A).Language(v);
    assert Index(ONE_LETTER, 97) == 0;
    assert Encode(ONE_LETTER, v) == [0];
    assert t.Accepts(0, [0][1..]);
    assert t.Accepts(0, [0]);
    assert Holds(ONE_LETTER, t, v);
  }
}
