/** The automata for single strings, characters, ranges and everything. */
module BasicAutomata {
  import opened Languages
  import opened Automata

  // ----- one string -----

  /** A chain of states that spells s. */
  ghost predicate IsChain(s: Word, n: nat, g: Graph) {
    && n <= |s| && g.initial == 0 && g.accept == {n as State} && (forall q: State {:trigger q in g.trans} ::
         q in g.trans <==> q <= n)
    && (forall q: State {:trigger g.trans[q]} :: q < n ==> g.trans[q] == {Transition(s[q], s[q], q + 1)})
         && g.trans[n] == {}
  }

  lemma {:induction false} ChainAccepts(s: Word, g: Graph, q: State, w: Word)
    requires IsChain(s, |s|, g) && q <= |s|
    ensures g.Accepts(q, w) <==> w == s[q..]
    decreases |w|
  {
    if w != [] {
      if q < |s| {
        var t := Transition(s[q], s[q], q + 1);
        assert g.Out(q) == {t};
        assert g.Succ(q, w[0]) == if w[0] == s[q] then {q + 1} else {} by {
          assert w[0] == s[q] ==> t.Covers(w[0]);
        }
        ChainAccepts(s, g, q + 1, w[1..]);
        assert s[q..] == [s[q]] + s[q + 1..] && w == [w[0]] + w[1..];
      } else {
        assert g.Succ(q, w[0]) == {};
      }
    } else {
      assert s[q..] == [] <==> q == |s|;
    }
  }

  lemma ChainIsGood(s: Word, n: nat, g: Graph)
    requires IsChain(s, n, g)
    ensures g.Valid() && g.Deterministic() && g.Reduced()
  {
  }

  /** Exactly one string: what a singleton automaton is expanded to. */
  method MakeString(s: Word) returns (a: Automaton)
    ensures fresh(a) && a.Valid() && a.deterministic && a.Snapshot().Reduced()
    ensures forall w :: a.Snapshot().Language(w) <==> w == s
  {
    a := new Automaton();
    a.accept := {0};
    var p: State := 0;
    for i := 0 to |s|
      invariant p == i && a.nextId == i + 1 && IsChain(s, i, a.Snapshot()) && a.deterministic
    {
      var q := a.nextId;
      a.nextId, a.trans, a.accept := q + 1, a.trans[q := {}][p := {Transition(s[i], s[i], q)}], {q};
      p := q;
    }
    ChainIsGood(s, |s|, a.Snapshot());
    forall w ensures a.Snapshot().Language(w) <==> w == s {
      ChainAccepts(s, a.Snapshot(), 0, w);
      assert s[0..] == s;
    }
  }

  // ----- one character of a range, and everything -----

  method MakeCharRange(min: Char, max: Char) returns (a: Automaton)
    ensures fresh(a) && a.Valid() && a.deterministic && a.Snapshot().Reduced()
    ensures forall w :: a.Snapshot().Language(w) <==> |w| == 1 && min <= w[0] <= max
  {
    if min == max {
      a := MakeString([min]);
      return;
    }
    a := new Automaton();
    a.nextId, a.accept, a.trans := 2, {1}, map[0 := if min <= max then {Transition(min, max, 1)} else {}, 1 := {}];
    forall w ensures a.Snapshot().Language(w) <==> |w| == 1 && min <= w[0] <= max {
      RangeAccepts(a.Snapshot(), min, max, w);
    }
  }

  lemma RangeAccepts(g: Graph, min: Char, max: Char, w: Word)
    requires g == Graph(0, {1}, map[0 := if min <= max then {Transition(min, max, 1)} else {}, 1 := {}])
    ensures g.Language(w) <==> |w| == 1 && min <= w[0] <= max
  {
    if w != [] {
      var t := Transition(min, max, 1);
      assert g.Succ(0, w[0]) == if min <= w[0] <= max then {1} else {} by {
        assert min <= w[0] <= max ==> t in g.Out(0) && t.Covers(w[0]);
      }
      assert g.Accepts(1, w[1..]) <==> w[1..] == [] by {
        assert w[1..] != [] ==> g.Succ(1, w[1..][0]) == {};
      }
    }
  }

  method MakeAnyString() returns (a: Automaton)
    ensures fresh(a) && a.Valid() && a.deterministic && a.Snapshot().Reduced()
    ensures forall w :: a.Snapshot().Language(w)
  {
    a := new Automaton();
    a.accept, a.trans := {0}, map[0 := {Transition(MIN_CHAR, MAX_CHAR, 0)}];
    forall w ensures a.Snapshot().Language(w) {
      EverythingAccepted(a.Snapshot(), w);
    }
  }

  lemma {:induction false} EverythingAccepted(g: Graph, w: Word)
    requires 0 in g.accept && Transition(MIN_CHAR, MAX_CHAR, 0) in g.Out(0)
    ensures g.Accepts(0, w)
    decreases |w|
  {
    if w != [] {
      EverythingAccepted(g, w[1..]);
      assert Transition(MIN_CHAR, MAX_CHAR, 0).Covers(w[0]);
      assert 0 in g.Succ(0, w[0]);
    }
  }
}
