/** The learner: builds the prefix tree and the constraints, searches the smallest number of states, and reads the
    automaton off the model. */
module Learners {
  import opened Languages
  import opened Automata
  import opened Equivalence
  import opened PrefixTrees
  import opened Encoding
  import opened Constraints
  import opened Formulas
  import opened Encoder
  import opened Counting
  import Bounds
  import Minimization

  datatype Option<T> = None | Some(value: T)

  /** The result of a call, or the exception that ended it. */
  datatype Outcome<T> = Ok(value: T) | IndexOutOfBounds

  /** The SAT solver: a model of the constraints, or None. */
  type Solver = seq<Formula> -> Option<Assignment>

  ghost predicate Exact(solve: Solver) {
    forall cs {:trigger solve(cs)} ::
      match solve(cs)
      case Some(m) => Models(cs, m)
      case None => forall m :: !Models(cs, m)
  }

  // ----- the prefix tree of a sample -----

  ghost predicate Spelled(alphabet: seq<Char>, words: seq<Word>, u: Letters) {
    exists w :: w in words && Over(alphabet, w) && Encode(alphabet, w) == u
  }

  /** Stores the words one after the other; a word whose acceptance is decided already keeps it. */
  method StoreWords(tree: PrefixTree, alphabet: seq<Char>, words: seq<Word>, accept: int)
    requires tree.Valid() && tree.alphabetSize == |alphabet| && forall w :: w in words ==> Over(alphabet, w)
    modifies tree
    ensures tree.Valid() && old(tree.index).Keys <= tree.index.Keys
    ensures forall w :: w in words ==> Encode(alphabet, w) in tree.index
    ensures forall u {:trigger tree.Accept(u)} ::
      tree.Accept(u) == if old(tree.Accept(u)) == 0 && Spelled(alphabet, words, u) then Sign(accept)
        else old(tree.Accept(u))
  {
    for i := 0 to |words|
      invariant tree.Valid() && old(tree.index).Keys <= tree.index.Keys
      invariant forall w :: w in words[..i] ==> Encode(alphabet, w) in tree.index
      invariant forall u {:trigger tree.Accept(u)} ::
        tree.Accept(u) == if old(tree.Accept(u)) == 0 && Spelled(alphabet, words[..i], u) then Sign(accept)
          else old(tree.Accept(u))
    {
      assert words[i] in words;
      var _ := tree.AddWord(Encode(alphabet, words[i]), accept);
      assert words[..i + 1] == words[..i] + [words[i]];
    }
    assert words[..|words|] == words;
  }

  function Antecedents(cs: seq<CounterExample>): (us: seq<Word>)
    ensures |us| == |cs| && forall i :: 0 <= i < |cs| ==> us[i] == cs[i].u
  {
    seq(|cs|, i requires 0 <= i < |cs| => cs[i].u)
  }

  /** Stores the antecedents of the counterexamples and decides nothing. */
  method StoreAntecedents(tree: PrefixTree, alphabet: seq<Char>, cs: seq<CounterExample>)
    requires tree.Valid() && tree.alphabetSize == |alphabet| && forall c :: c in cs ==> Over(alphabet, c.u)
    modifies tree
    ensures tree.Valid() && old(tree.index).Keys <= tree.index.Keys
    ensures forall c :: c in cs ==> Encode(alphabet, c.u) in tree.index
    ensures forall u {:trigger tree.Accept(u)} :: tree.Accept(u) == old(tree.Accept(u))
  {
    var us := Antecedents(cs);
    forall w | w in us ensures Over(alphabet, w) {
      var i :| 0 <= i < |us| && us[i] == w;
      assert cs[i] in cs;
    }
    StoreWords(tree, alphabet, us, 0);
    forall c | c in cs ensures Encode(alphabet, c.u) in tree.index {
      var i :| 0 <= i < |cs| && cs[i] == c;
      assert us[i] in us;
    }
  }

  method BuildTree(alphabet: seq<Char>, s: SampleData) returns (tree: PrefixTree)
    requires SampleOver(alphabet, s)
    ensures fresh(tree) && tree.Valid() && tree.alphabetSize == |alphabet|
        && TreeOf(alphabet, s, tree.nodes, tree.index)
  {
    tree := new PrefixTree(|alphabet|);
    StoreWords(tree, alphabet, s.pos, 1);
    StoreWords(tree, alphabet, s.neg, -1);
    StoreAntecedents(tree, alphabet, s.uni);
    StoreAntecedents(tree, alphabet, s.ex);
    forall u ensures AcceptIn(tree.nodes, tree.index, u) == if Spelled(alphabet, s.pos, u) then 1
        else if Spelled(alphabet, s.neg, u) then -1 else 0
    {
      assert tree.Accept(u) == AcceptIn(tree.nodes, tree.index, u);
    }
  }

  // ----- constructSAT -----

  lemma {:induction false} PrefixesAreStored(alphabetSize: nat, nodes: seq<Node>, index: map<Letters, nat>, s: Letters,
      n: nat)
    requires IsTree(alphabetSize, nodes, index) && n <= |s| && s[..n] in index
    ensures Prefixes(s, n) <= index.Keys
  {
    if n > 0 {
      assert StoredAt(alphabetSize, nodes, index, s[..n]);
      assert s[..n][..n - 1] == s[..n - 1];
      PrefixesAreStored(alphabetSize, nodes, index, s, n - 1);
    }
  }

  /** Looking a stored word up leaves the tree as it is. */
  method FindNode(tree: PrefixTree, alphabet: seq<Char>, s: SampleData, u: Word) returns (id: nat)
    requires tree.Valid() && tree.alphabetSize == |alphabet| && TreeOf(alphabet, s, tree.nodes, tree.index)
    requires Over(alphabet, u) && Encode(alphabet, u) in tree.index
    modifies tree
    ensures tree.Valid() && TreeOf(alphabet, s, tree.nodes, tree.index) && tree.index == old(tree.index)
    ensures id == tree.index[Encode(alphabet, u)]
  {
    var w := Encode(alphabet, u);
    assert w[..|w|] == w;
    PrefixesAreStored(|alphabet|, tree.nodes, tree.index, w, |w|);
    ghost var nodes, index := tree.nodes, tree.index;
    id := tree.GetNode(w);
    assert tree.index == index;
    forall v ensures AcceptIn(tree.nodes, index, v) == AcceptIn(nodes, index, v) {
      assert tree.Accept(v) == old(tree.Accept(v));
    }
  }

  /** The first k universal counterexamples have their constraints. */
  ghost predicate AllUniHold(m: Assignment, n: nat, alphabet: seq<Char>, index: map<Letters, nat>,
      cs: seq<CounterExample>, k: nat)
    requires k <= |cs|
  {
    forall i {:trigger cs[i]} :: 0 <= i < k ==> UniHolds(m, n, alphabet, index, i, cs[i])
  }

  ghost predicate AllExHold(m: Assignment, n: nat, alphabet: seq<Char>, index: map<Letters, nat>,
      cs: seq<CounterExample>, k: nat)
    requires k <= |cs|
  {
    forall i {:trigger cs[i]} :: 0 <= i < k ==> ExHolds(m, n, alphabet, index, i, cs[i])
  }

  /** The tree is the sample's, with the given numbering. */
  ghost predicate Keeps(tree: PrefixTree, alphabet: seq<Char>, s: SampleData, index: map<Letters, nat>)
    reads tree
  {
    tree.Valid() && tree.alphabetSize == |alphabet| && TreeOf(alphabet, s, tree.nodes, tree.index)
      && tree.index == index
  }

  method ConstrainUniversal(cs0: seq<Formula>, n: nat, alphabet: seq<Char>, s: SampleData, tree: PrefixTree,
      ghost index: map<Letters, nat>, i: nat)
      returns (cs: seq<Formula>)
    requires Keeps(tree, alphabet, s, index) && i < |s.uni|
    modifies tree
    ensures Keeps(tree, alphabet, s, index)
    ensures Adds(cs0, cs, (m: Assignment) => UniHolds(m, n, alphabet, index, i, s.uni[i]))
  {
    var c := s.uni[i];
    assert c in s.uni;
    var u := FindNode(tree, alphabet, s, c.u);
    cs := ConstrainY(cs0, n, alphabet, i, c.a, u);
  }

  lemma OneMoreUni(cs0: seq<Formula>, cs1: seq<Formula>, cs2: seq<Formula>, n: nat, alphabet: seq<Char>,
      index: map<Letters, nat>, cs: seq<CounterExample>, i: nat)
    requires i < |cs| && Adds(cs0, cs1, (m: Assignment) => AllUniHold(m, n, alphabet, index, cs, i))
    requires Adds(cs1, cs2, (m: Assignment) => UniHolds(m, n, alphabet, index, i, cs[i]))
    ensures Adds(cs0, cs2, (m: Assignment) => AllUniHold(m, n, alphabet, index, cs, i + 1))
  {
  }

  lemma OneMoreEx(cs0: seq<Formula>, cs1: seq<Formula>, cs2: seq<Formula>, n: nat, alphabet: seq<Char>,
      index: map<Letters, nat>, cs: seq<CounterExample>, i: nat)
    requires i < |cs| && Adds(cs0, cs1, (m: Assignment) => AllExHold(m, n, alphabet, index, cs, i))
    requires Adds(cs1, cs2, (m: Assignment) => ExHolds(m, n, alphabet, index, i, cs[i]))
    ensures Adds(cs0, cs2, (m: Assignment) => AllExHold(m, n, alphabet, index, cs, i + 1))
  {
  }

  method ConstrainUniversals(cs0: seq<Formula>, n: nat, alphabet: seq<Char>, s: SampleData, tree: PrefixTree,
      ghost index: map<Letters, nat>)
      returns (cs: seq<Formula>)
    requires Keeps(tree, alphabet, s, index)
    modifies tree
    ensures Keeps(tree, alphabet, s, index)
    ensures Adds(cs0, cs, (m: Assignment) => AllUniHold(m, n, alphabet, index, s.uni, |s.uni|))
  {
    cs := cs0;
    for i := 0 to |s.uni|
      invariant Keeps(tree, alphabet, s, index)
      invariant Adds(cs0, cs, (m: Assignment) => AllUniHold(m, n, alphabet, index, s.uni, i))
    {
      ghost var before := cs;
      cs := ConstrainUniversal(cs, n, alphabet, s, tree, index, i);
      OneMoreUni(cs0, before, cs, n, alphabet, index, s.uni, i);
    }
  }

  /** The array of z variables of some existential counterexample has no place for the empty word. */
  ghost predicate Crashes(n: nat, s: SampleData) {
    exists c :: c in s.ex && n * |c.a.ReachableStates()| == 1
  }

  method ConstrainExistential(cs0: seq<Formula>, n: nat, alphabet: seq<Char>, s: SampleData, tree: PrefixTree,
      ghost index: map<Letters, nat>, i: nat)
      returns (r: Outcome<seq<Formula>>)
    requires n > 0 && Keeps(tree, alphabet, s, index) && i < |s.ex|
    modifies tree
    ensures Keeps(tree, alphabet, s, index)
    ensures r.IndexOutOfBounds? <==> n * |s.ex[i].a.ReachableStates()| == 1
    ensures r.Ok? ==> Adds(cs0, r.value, (m: Assignment) => ExHolds(m, n, alphabet, index, i, s.ex[i]))
  {
    var c := s.ex[i];
    assert c in s.ex;
    var states := FindStates(c.a);
    SomeLength(n, c.a);
    var bound := n * |states| - 1;
    if bound == 0 {
      return IndexOutOfBounds;
    }
    var u := FindNode(tree, alphabet, s, c.u);
    var cs := ConstrainZ(cs0, n, alphabet, i, c.a, u, bound);
    r := Ok(cs);
  }

  method ConstrainExistentials(cs0: seq<Formula>, n: nat, alphabet: seq<Char>, s: SampleData, tree: PrefixTree,
      ghost index: map<Letters, nat>)
      returns (r: Outcome<seq<Formula>>)
    requires n > 0 && Keeps(tree, alphabet, s, index)
    modifies tree
    ensures Keeps(tree, alphabet, s, index)
    ensures r.IndexOutOfBounds? <==> Crashes(n, s)
    ensures r.Ok? ==> Adds(cs0, r.value, (m: Assignment) => AllExHold(m, n, alphabet, index, s.ex, |s.ex|))
  {
    r := Ok(cs0);
    for i := 0 to |s.ex|
      invariant Keeps(tree, alphabet, s, index)
      invariant r.Ok? && forall j {:trigger s.ex[j]} :: 0 <= j < i ==> n * |s.ex[j].a.ReachableStates()| != 1
      invariant Adds(cs0, r.value, (m: Assignment) => AllExHold(m, n, alphabet, index, s.ex, i))
    {
      ghost var before := r.value;
      r := ConstrainExistential(r.value, n, alphabet, s, tree, index, i);
      if r.IndexOutOfBounds? {
        assert s.ex[i] in s.ex;
        return;
      }
      OneMoreEx(cs0, before, r.value, n, alphabet, index, s.ex, i);
    }
  }

  lemma SomeLength(n: nat, g: Graph)
    requires n > 0 && g.Valid()
    ensures n * |g.ReachableStates()| >= 1 && Lengths(n, g) == n * |g.ReachableStates()| - 1
  {
    assert g.initial in g.ReachableStates();
    assert |g.ReachableStates()| >= 1;
    assert n * |g.ReachableStates()| == (n - 1) * |g.ReachableStates()| + |g.ReachableStates()|;
  }

  /** All constraints for n states: they have exactly the models that Holding describes. */
  method ConstructSAT(alphabet: seq<Char>, s: SampleData, n: nat)
      returns (r: Outcome<seq<Formula>>, ghost nodes: seq<Node>, ghost index: map<Letters, nat>)
    requires n > 0 && SampleOver(alphabet, s)
    ensures r.IndexOutOfBounds? <==> Crashes(n, s)
    ensures TreeOf(alphabet, s, nodes, index)
    ensures r.Ok? ==> forall m {:trigger Models(r.value, m)} :: Models(r.value, m) <==>
        Holding(m, n, alphabet, s, nodes, index)
  {
    var tree := BuildTree(alphabet, s);
    index := tree.index;
    var cs := ConstrainUniversals([], n, alphabet, s, tree, index);
    ghost var uni := cs;
    r := ConstrainExistentials(cs, n, alphabet, s, tree, index);
    nodes := tree.nodes;
    if r.IndexOutOfBounds? {
      return;
    }
    ghost var ex := r.value;
    cs := ConstrainD(r.value, n, |alphabet|);
    cs := ConstrainPrefixes(cs, n, |alphabet|, tree.nodes, index);
    r := Ok(cs);
    forall m ensures Models(cs, m) <==> Holding(m, n, alphabet, s, nodes, index) {
      assert Models([], m);
      assert Models(uni, m) <==> AllUniHold(m, n, alphabet, index, s.uni, |s.uni|);
      assert Models(ex, m) <==> Models(uni, m) && AllExHold(m, n, alphabet, index, s.ex, |s.ex|);
    }
  }

  // ----- translateModel -----

  /** The automaton with one state and one single-character transition for each entry of a table. */
  ghost function TableGraph(alphabet: seq<Char>, t: Table): Graph
    requires t.Valid() && t.letters == |alphabet|
  {
    Graph(0, set q | 0 <= q < t.Size() && t.accept[q] :: q, map p: nat | 0 <= p < t.Size() ::
      TableRow(alphabet, t, p, |alphabet|))
  }

  ghost function TableRow(alphabet: seq<Char>, t: Table, p: nat, k: nat): set<Transition>
    requires t.Valid() && t.letters == |alphabet| && p < t.Size() && k <= |alphabet|
  {
    set a | 0 <= a < k :: Transition(alphabet[a], alphabet[a], t.next[p][a])
  }

  lemma TableSucc(alphabet: seq<Char>, t: Table, p: nat, c: Char)
    requires t.Valid() && IsAlphabet(alphabet) && t.letters == |alphabet| && p < t.Size()
    ensures TableGraph(alphabet, t).Succ(p, c) == if c in alphabet then {t.next[p][Index(alphabet, c)] as State} else {}
  {
    var g := TableGraph(alphabet, t);
    if c in alphabet {
      var a := Index(alphabet, c);
      assert Transition(alphabet[a], alphabet[a], t.next[p][a]) in g.Out(p);
      forall e | e in g.Out(p) && e.Covers(c) ensures e.to == t.next[p][a] {
        var b :| 0 <= b < |alphabet| && e == Transition(alphabet[b], alphabet[b], t.next[p][b]);
        assert b == a;
      }
    }
  }

  lemma {:induction false} TableGraphAccepts(alphabet: seq<Char>, t: Table, q: nat, w: Word)
    requires t.Valid() && IsAlphabet(alphabet) && t.letters == |alphabet| && q < t.Size()
    ensures TableGraph(alphabet, t).Accepts(q, w) <==> Over(alphabet, w) && t.Accepts(q, Encode(alphabet, w))
    decreases |w|
  {
    if w != [] {
      TableSucc(alphabet, t, q, w[0]);
      assert w == [w[0]] + w[1..];
      assert Over(alphabet, w) <==> w[0] in alphabet && Over(alphabet, w[1..]);
      if w[0] in alphabet {
        TableGraphAccepts(alphabet, t, t.next[q][Index(alphabet, w[0])], w[1..]);
        if Over(alphabet, w) {
          assert Encode(alphabet, w)[1..] == Encode(alphabet, w[1..]);
        }
      }
    }
  }

  lemma TableGraphIsValid(alphabet: seq<Char>, t: Table)
    requires t.Valid() && IsAlphabet(alphabet) && t.letters == |alphabet| && t.Size() > 0
    ensures TableGraph(alphabet, t).Valid() && TableGraph(alphabet, t).Deterministic()
  {
  }

  /** With fewer letters than characters, some character is not a letter. */
  lemma SomeCharacterIsMissing(alphabet: seq<Char>, n: nat) returns (c: Char)
    requires |alphabet| <= n <= MAX_CHAR
    ensures c !in alphabet
  {
    var letters := LetterSet(alphabet);
    CharCount(n);
    if Chars(n) <= letters {
      SubsetSize(Chars(n), letters);
    }
    c :| c in Chars(n) && c !in letters;
  }

  lemma EveryCharacterIsThere(alphabet: seq<Char>, n: nat, c: Char)
    requires IsAlphabet(alphabet) && n <= MAX_CHAR && |alphabet| > n && c <= n && forall d {:trigger d in alphabet} ::
        d in alphabet ==> d <= n
    ensures c in alphabet
  {
    if c !in alphabet {
      CharCount(n);
      forall h | 0 <= h < |alphabet| ensures alphabet[h] in Chars(n) - {c} {
        assert alphabet[h] in alphabet;
      }
      var i, j := Pigeonhole(alphabet, Chars(n) - {c});
    }
  }

  /** Over the alphabet of all characters the automaton with one state cannot be minimized: its transitions cover
      everything without being one interval, which is where minimizeHopcroft runs out of its arrays. */
  lemma FullAlphabetFails(alphabet: seq<Char>, t: Table)
    requires IsAlphabet(alphabet) && |alphabet| > MAX_CHAR && IsDfa(t, 1, |alphabet|)
    ensures !Minimization.Minimizable(TableGraph(alphabet, t))
  {
    var g := TableGraph(alphabet, t);
    forall c: Char ensures g.Succ(0, c) == {0} && Transition(c, c, 0) in g.trans[0] {
      EveryCharacterIsThere(alphabet, MAX_CHAR, c);
      TableSucc(alphabet, t, 0, c);
      var a := Index(alphabet, c);
      assert Transition(alphabet[a], alphabet[a], t.next[0][a]) in TableRow(alphabet, t, 0, |alphabet|);
    }
    assert Transition(0, 0, 0) in g.trans[0] && Transition(1, 1, 0) in g.trans[0];
  }

  ghost function Chars(n: nat): (s: set<Char>)
    requires n <= MAX_CHAR
    ensures forall c: Char :: c in s <==> c <= n
  {
    if n == 0 then {0} else Chars(n - 1) + {n}
  }

  lemma {:induction false} CharCount(n: nat)
    requires n <= MAX_CHAR
    ensures |Chars(n)| == n + 1
    decreases n
  {
    if n > 0 {
      CharCount(n - 1);
    }
  }

  ghost function LetterSet(alphabet: seq<Char>): (s: set<Char>)
    ensures |s| <= |alphabet| && forall c :: c in s <==> c in alphabet
  {
    if alphabet == [] then {} else {alphabet[0]} + LetterSet(alphabet[1..])
  }

  /** The row of state p: a transition for each true d variable. */
  method ReadRow(m: Assignment, n: nat, alphabet: seq<Char>, ghost t: Table, p: nat) returns (row: set<Transition>)
    requires Describes(m, n, |alphabet|, t) && p < n
    ensures row == TableRow(alphabet, t, p, |alphabet|)
  {
    row := {};
    for a := 0 to |alphabet|
      invariant row == TableRow(alphabet, t, p, a)
    {
      ghost var before := row;
      for q := 0 to n
        invariant row == if t.next[p][a] < q then before + {Transition(alphabet[a], alphabet[a], t.next[p][a])}
            else before
      {
        if m(D(p, a, q)) {
          row := row + {Transition(alphabet[a], alphabet[a], q)};
        }
      }
    }
  }

  /** Reads the automaton off a model and minimizes it. */
  method TranslateModel(m: Assignment, n: nat, alphabet: seq<Char>, ghost t: Table) returns (conjectured: Automaton)
    requires n > 0 && IsAlphabet(alphabet) && |alphabet| <= MAX_CHAR && Describes(m, n, |alphabet|, t)
    ensures fresh(conjectured) && conjectured.Clean() && conjectured.deterministic && conjectured.Snapshot().Minimal()
    ensures forall w :: conjectured.Snapshot().Language(w) <==> Encoding.Holds(alphabet, t, w)
  {
    var accept: set<State>, trans: map<State, set<Transition>> := {}, map[];
    for i := 0 to n
      invariant accept == set q | 0 <= q < i && t.accept[q] :: q
    {
      if m(F(i)) {
        accept := accept + {i};
      }
    }
    for p := 0 to n
      invariant trans == map r: nat | 0 <= r < p :: TableRow(alphabet, t, r, |alphabet|)
    {
      var row := ReadRow(m, n, alphabet, t, p);
      trans := trans[p := row];
    }
    ghost var g := TableGraph(alphabet, t);
    assert Graph(0, accept, trans) == g;
    TableGraphIsValid(alphabet, t);
    conjectured := new Automaton.FromGraph(Graph(0, accept, trans), n, true);
    ghost var c := SomeCharacterIsMissing(alphabet, MAX_CHAR);
    TableSucc(alphabet, t, 0, c);
    assert g.Succ(g.initial, c) != {g.initial};
    assert !Minimization.LoopsOnly(g) by {
      assert Minimization.LoopsOnly(g) ==> g.initial in g.Succ(g.initial, c);
    }
    Minimization.MinimizeHopcroft(conjectured);
    forall w ensures conjectured.Snapshot().Language(w) <==> Encoding.Holds(alphabet, t, w) {
      TableGraphAccepts(alphabet, t, 0, w);
      assert g.Language(w) <==> conjectured.Snapshot().Language(w);
    }
  }

  // ----- conjecture -----

  ghost predicate Fits(n: nat, alphabet: seq<Char>, s: SampleData) {
    exists t :: IsDfa(t, n, |alphabet|) && AgreesWithin(alphabet, t, s)
  }

  /** One turn of conjecture: with an exact solver the constraints are satisfiable exactly when some automaton of this
      size fits. */
  method Attempt(solve: Solver, alphabet: seq<Char>, s: SampleData, n: nat)
      returns (r: Outcome<Option<Assignment>>, ghost t: Table)
    requires Exact(solve) && n > 0 && IsAlphabet(alphabet) && SampleOver(alphabet, s)
    ensures r.IndexOutOfBounds? <==> Crashes(n, s)
    ensures r.Ok? ==> (r.value.Some? <==> Fits(n, alphabet, s))
    ensures r.Ok? && r.value.Some? ==> Describes(r.value.value, n, |alphabet|, t) && AgreesWithin(alphabet, t, s)
  {
    var constraints;
    ghost var nodes, index;
    constraints, nodes, index := ConstructSAT(alphabet, s, n);
    t := Table(0, [], []);
    if constraints.IndexOutOfBounds? {
      return IndexOutOfBounds, t;
    }
    var status := solve(constraints.value);
    r := Ok(status);
    SatisfiableIffAgreeing(n, alphabet, s, nodes, index);
    if status.Some? {
      assert Models(constraints.value, status.value);
      t := ModelDescribes(status.value, n, |alphabet|);
      ModelAgrees(status.value, n, alphabet, s, nodes, index, t);
    } else {
      assert forall m :: Holding(m, n, alphabet, s, nodes, index) ==> Models(constraints.value, m);
    }
  }

  lemma CrashesOnlyAtOne(n: nat, s: SampleData)
    requires Crashes(n, s)
    ensures n == 1
  {
    var c :| c in s.ex && n * |c.a.ReachableStates()| == 1;
    OnlyOneTimesOne(n, |c.a.ReachableStates()|);
  }

  lemma OnlyOneTimesOne(n: nat, k: nat)
    ensures n * k == 1 ==> n == 1
  {
    if n > 1 && k >= 1 {
      assert n * k == n + n * (k - 1);
    }
  }

  class Learner {
    const alphabet: seq<Char>
    var n: nat

    constructor (alphabet: seq<Char>)
      ensures this.alphabet == alphabet && n == 1
    {
      this.alphabet, n := alphabet, 1;
    }

    /** Conjectures an automaton with the smallest number of states, from n on, for which some automaton fits the
        sample. It ends whenever any automaton at all agrees with the sample; the crash comes only from the first size.
        */
    method Conjecture(solve: Solver, s: SampleData, ghost target: Table) returns (r: Outcome<Automaton>, ghost t: Table)
      requires n > 0 && Exact(solve) && IsAlphabet(alphabet) && |alphabet| <= MAX_CHAR && SampleOver(alphabet, s)
      requires IsDfa(target, target.Size(), |alphabet|) && Agrees(alphabet, target, s)
      modifies this
      ensures old(n) <= n && (n == old(n) || n <= target.Size() + 1)
      ensures forall k: nat :: old(n) <= k < n ==> !Fits(k, alphabet, s)
      ensures r.IndexOutOfBounds? <==> Crashes(old(n), s)
      ensures r.IndexOutOfBounds? ==> n == old(n)
      ensures r.Ok? ==> IsDfa(t, n, |alphabet|) && AgreesWithin(alphabet, t, s)
      ensures r.Ok? ==> fresh(r.value) && r.value.Clean() && r.value.deterministic && r.value.Snapshot().Minimal()
      ensures r.Ok? ==> forall w :: r.value.Snapshot().Language(w) <==> Encoding.Holds(alphabet, t, w)
    {
      var status: Outcome<Option<Assignment>>;
      status, t := Attempt(solve, alphabet, s, n);
      while status.Ok? && status.value.None?
        invariant old(n) <= n && (n == old(n) || n <= target.Size() + 1)
        invariant forall k: nat :: old(n) <= k < n ==> !Fits(k, alphabet, s)
        invariant status.IndexOutOfBounds? <==> Crashes(old(n), s)
        invariant status.IndexOutOfBounds? ==> n == old(n)
        invariant status.Ok? ==> (status.value.Some? <==> Fits(n, alphabet, s))
        invariant status.Ok? && status.value.Some? ==>
            Describes(status.value.value, n, |alphabet|, t) && AgreesWithin(alphabet, t, s)
        decreases target.Size() + 1 - n
      {
        if n > target.Size() {
          var u := Bounds.MoreStatesSuffice(alphabet, target, s, n);
        }
        n := n + 1;
        status, t := Attempt(solve, alphabet, s, n);
        if Crashes(n, s) {
          CrashesOnlyAtOne(n, s);
        }
      }
      if status.IndexOutOfBounds? {
        return IndexOutOfBounds, t;
      }
      var conjectured := TranslateModel(status.value.value, n, alphabet, t);
      r := Ok(conjectured);
    }
  }
}
