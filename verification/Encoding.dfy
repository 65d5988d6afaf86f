/** What the learner's Boolean constraints say, and why they say "some n-state DFA agrees with the sample". */
module Encoding {
  import opened Languages
  import opened Equivalence
  import opened PrefixTrees

  // ----- alphabets -----

  ghost predicate IsAlphabet(alphabet: seq<Char>) {
    forall i, j :: 0 <= i < j < |alphabet| ==> alphabet[i] != alphabet[j]
  }

  predicate Over(alphabet: seq<Char>, w: Word) {
    forall i :: 0 <= i < |w| ==> w[i] in alphabet
  }

  /** The number of a character. */
  function Index(alphabet: seq<Char>, c: Char): (i: nat)
    requires c in alphabet
    ensures i < |alphabet| && alphabet[i] == c
  {
    if alphabet[0] == c then 0 else 1 + Index(alphabet[1..], c)
  }

  function Encode(alphabet: seq<Char>, w: Word): (u: Letters)
    requires Over(alphabet, w)
    ensures |u| == |w| && forall i :: 0 <= i < |w| ==> u[i] == Index(alphabet, w[i])
  {
    seq(|w|, i requires 0 <= i < |w| => Index(alphabet, w[i]))
  }

  // ----- samples -----

  datatype CounterExample = CounterExample(u: Word, a: Graph)

  datatype SampleData = SampleData(pos: seq<Word>, neg: seq<Word>, uni: seq<CounterExample>, ex: seq<CounterExample>)

  /** The automaton of a counterexample as the learner reads it: only the first character of each interval. */
  function Read(g: Graph): Graph {
    Graph(g.initial, g.accept, map q | q in g.trans :: set t | t in g.trans[q] :: Transition(t.min, t.min, t.to))
  }

  /** Of an interval the learner reads the first character and no other. */
  lemma ReadsFirstOfInterval(g: Graph, x: Char, y: Char, w: Word)
    requires x <= y && g == Graph(0, {1}, map[0 := {Transition(x, y, 1)}, 1 := {}])
    ensures g.Language(w) <==> |w| == 1 && x <= w[0] <= y
    ensures Read(g).Language(w) <==> w == [x]
  {
    OneInterval(g, x, y, w);
    var r := Transition(x, x, 1);
    assert Read(g).trans[0] == {r} by {
      assert r == Transition(x, x, Transition(x, y, 1).to) && Transition(x, y, 1) in g.trans[0];
    }
    assert Read(g).trans[1] == {};
    assert Read(g).trans.Keys == {0, 1};
    assert Read(g).trans == map[0 := {r}, 1 := {}];
    OneInterval(Read(g), x, x, w);
  }

  lemma OneInterval(g: Graph, x: Char, y: Char, w: Word)
    requires x <= y && g == Graph(0, {1}, map[0 := {Transition(x, y, 1)}, 1 := {}])
    ensures g.Language(w) <==> |w| == 1 && x <= w[0] <= y
  {
    var t := Transition(x, y, 1);
    assert t in g.Out(0);
    if w != [] {
      assert t.Covers(w[0]) ==> t.to in g.Succ(0, w[0]);
      assert g.Accepts(1, w[1..]) <==> w[1..] == [] by {
        if w[1..] != [] {
          assert g.Succ(1, w[1..][0]) == {};
        }
      }
    }
  }

  ghost predicate ReadableOver(alphabet: seq<Char>, g: Graph) {
    g.Valid() && forall q, t {:trigger t in g.trans[q]} :: q in g.trans && g.Reachable(q) && t in g.trans[q] ==>
      t.min in alphabet
  }

  /** Where every reachable interval is a single character the learner reads the automaton itself. */
  ghost predicate SingleLabels(g: Graph) {
    forall q, t {:trigger t in g.trans[q]} :: q in g.trans && t in g.trans[q] ==> t.min == t.max
  }

  lemma SingleLabelsAreRead(g: Graph)
    requires SingleLabels(g)
    ensures Read(g) == g
  {
    forall q | q in g.trans ensures Read(g).trans[q] == g.trans[q] {
      assert forall t :: t in g.trans[q] ==> Transition(t.min, t.min, t.to) == t;
    }
  }

  ghost predicate SampleOver(alphabet: seq<Char>, s: SampleData) {
    && (forall w :: w in s.pos ==> Over(alphabet, w))
    && (forall w :: w in s.neg ==> Over(alphabet, w))
    && (forall c :: c in s.uni ==> Over(alphabet, c.u) && ReadableOver(alphabet, c.a))
    && (forall c :: c in s.ex ==> Over(alphabet, c.u) && ReadableOver(alphabet, c.a))
  }

  // ----- runs of a table -----

  ghost predicate IsDfa(t: Table, n: nat, letters: nat) {
    t.Valid() && t.Size() == n && t.letters == letters && n > 0
  }

  ghost function Run(t: Table, q: nat, u: Letters): (r: nat)
    requires t.Valid() && q < t.Size() && OverLetters(u, t.letters)
    ensures r < t.Size()
    decreases |u|
  {
    if u == [] then q else Run(t, t.next[q][u[0]], u[1..])
  }

  lemma {:induction false} AcceptsByRun(t: Table, q: nat, u: Letters)
    requires t.Valid() && q < t.Size() && OverLetters(u, t.letters)
    ensures t.Accepts(q, u) <==> t.accept[Run(t, q, u)]
    decreases |u|
  {
    if u != [] {
      AcceptsByRun(t, t.next[q][u[0]], u[1..]);
    }
  }

  lemma {:induction false} RunConcat(t: Table, q: nat, u: Letters, v: Letters)
    requires t.Valid() && q < t.Size() && OverLetters(u, t.letters) && OverLetters(v, t.letters)
    ensures OverLetters(u + v, t.letters)
    ensures Run(t, q, u + v) == Run(t, Run(t, q, u), v)
    decreases |u|
  {
    if u == [] {
      assert u + v == v;
    } else {
      assert (u + v)[1..] == u[1..] + v;
      RunConcat(t, t.next[q][u[0]], u[1..], v);
    }
  }

  lemma RunSnoc(t: Table, q: nat, u: Letters, a: nat)
    requires t.Valid() && q < t.Size() && OverLetters(u, t.letters) && a < t.letters
    ensures OverLetters(u + [a], t.letters)
    ensures Run(t, q, u + [a]) == t.next[Run(t, q, u)][a]
  {
    RunConcat(t, q, u, [a]);
    assert Run(t, Run(t, q, u), [a]) == Run(t, t.next[Run(t, q, u)][a], [a][1..]);
  }

  /** The language of a table over an alphabet. */
  ghost predicate Holds(alphabet: seq<Char>, t: Table, w: Word)
    requires t.Valid() && t.Size() > 0
  {
    Over(alphabet, w) && t.Accepts(0, Encode(alphabet, w))
  }

  // ----- agreement with a sample -----

  /** Some word of the automaton no longer than the bound is accepted. */
  ghost predicate Witnessed(alphabet: seq<Char>, t: Table, g: Graph, bound: int)
    requires t.Valid() && t.Size() > 0
  {
    exists v :: |v| <= bound && g.Language(v) && Holds(alphabet, t, v)
  }

  /** The longest word the z variables can speak of. */
  ghost function ZBound(n: nat, g: Graph): int {
    n * |g.ReachableStates()| - 2
  }

  ghost predicate AgreesWords(alphabet: seq<Char>, t: Table, s: SampleData)
    requires t.Valid() && t.Size() > 0
  {
    && (forall w :: w in s.pos ==> Holds(alphabet, t, w))
    && (forall w :: w in s.neg && w !in s.pos ==> !Holds(alphabet, t, w))
    && (forall c, v :: c in s.uni && Holds(alphabet, t, c.u) && Read(c.a).Language(v) ==> Holds(alphabet, t, v))
  }

  /** Agreement as the encoding can express it: existential witnesses have length at most n*na-2. */
  ghost predicate AgreesWithin(alphabet: seq<Char>, t: Table, s: SampleData)
    requires t.Valid() && t.Size() > 0
  {
    && AgreesWords(alphabet, t, s)
    && (forall c :: c in s.ex && Holds(alphabet, t, c.u) ==> Witnessed(alphabet, t, Read(c.a), ZBound(t.Size(), c.a)))
  }

  /** Agreement as it is meant: some word of the automaton is accepted, however long. */
  ghost predicate Agrees(alphabet: seq<Char>, t: Table, s: SampleData)
    requires t.Valid() && t.Size() > 0
  {
    && AgreesWords(alphabet, t, s)
    && (forall c :: c in s.ex && Holds(alphabet, t, c.u) ==> exists v :: Read(c.a).Language(v) && Holds(alphabet, t, v))
  }
}
