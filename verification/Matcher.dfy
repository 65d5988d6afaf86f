/** makeStringMatcher: a deterministic automaton that finds a given substring. */
module Matchers {
  import opened Languages
  import opened Automata

  // ----- what the states mean -----

  /** The first j characters of s end w. */
  predicate Ends(s: Word, j: nat, w: Word)
    requires j <= |s|
  {
    j <= |w| && w[|w| - j..] == s[..j]
  }

  /** s stands in w at position k. */
  predicate OccursAt(w: Word, s: Word, k: nat) {
    k + |s| <= |w| && w[k..k + |s|] == s
  }

  ghost predicate Contains(w: Word, s: Word) {
    exists k: nat :: OccursAt(w, s, k)
  }

  /** i is the length of the longest prefix of s that ends w. */
  ghost predicate Longest(s: Word, w: Word, i: nat) {
    i <= |s| && Ends(s, i, w) && forall j {:trigger Ends(s, j, w)} :: i < j <= |s| ==> !Ends(s, j, w)
  }

  /** Where the automaton is after reading w. */
  ghost predicate At(s: Word, w: Word, q: State) {
    if Contains(w, s) then q == |s| else Longest(s, w, q)
  }

  /** The first j characters of s end what state i has read of s, followed by c. */
  predicate Fits(s: Word, i: nat, j: nat, c: Char)
    requires i < |s|
  {
    1 <= j <= i && s[j - 1] == c && s[..j - 1] == s[i - j + 1..i]
  }

  /** The largest j up to the given one that fits, or the start. */
  function Fallback(s: Word, i: nat, c: Char, j: nat): (r: nat)
    requires i < |s| && j <= i
    ensures r <= j && (r > 0 ==> Fits(s, i, r, c)) && forall k: nat {:trigger Fits(s, i, k, c)} :: r < k <= j ==>
        !Fits(s, i, k, c)
  {
    if j == 0 then 0 else if Fits(s, i, j, c) then j else Fallback(s, i, c, j - 1)
  }

  function Next(s: Word, i: nat, c: Char): nat
    requires i < |s|
  {
    if c == s[i] then i + 1 else Fallback(s, i, c, i)
  }

  lemma EndsStep(s: Word, j: nat, w: Word, c: Char)
    requires 1 <= j <= |s|
    ensures Ends(s, j, w + [c]) <==> s[j - 1] == c && Ends(s, j - 1, w)
  {
    if j <= |w| + 1 {
      assert (w + [c])[|w| + 1 - j..] == w[|w| - (j - 1)..] + [c];
      assert s[..j] == s[..j - 1] + [s[j - 1]];
    }
  }

  /** A shorter prefix ends w just when it ends the longest one. */
  lemma EndsWithin(s: Word, w: Word, i: nat, j: nat)
    requires i <= |s| && Ends(s, i, w) && j <= i
    ensures Ends(s, j, w) <==> s[..j] == s[i - j..i]
  {
    assert w[|w| - j..] == w[|w| - i..][i - j..];
    assert s[i - j..i] == s[..i][i - j..];
  }

  /** One character: the longest prefix that ends the longer word. */
  lemma LongestStep(s: Word, w: Word, i: nat, c: Char)
    requires Longest(s, w, i) && i < |s|
    ensures Longest(s, w + [c], Next(s, i, c))
  {
    forall j | 1 <= j <= |s| ensures Ends(s, j, w + [c]) <==> (j == i + 1 && c == s[i]) || Fits(s, i, j, c) {
      EndsStep(s, j, w, c);
      if j <= i + 1 {
        EndsWithin(s, w, i, j - 1);
      }
    }
    assert Ends(s, 0, w + [c]);
  }

  lemma ContainsStep(s: Word, w: Word, c: Char)
    ensures Contains(w + [c], s) <==> Contains(w, s) || Ends(s, |s|, w + [c])
  {
    var v := w + [c];
    if k: nat :| OccursAt(w, s, k) {
      assert v[k..k + |s|] == w[k..k + |s|];
      assert OccursAt(v, s, k);
    }
    if k: nat :| OccursAt(v, s, k) {
      if k + |s| <= |w| {
        assert v[k..k + |s|] == w[k..k + |s|];
        assert OccursAt(w, s, k);
      } else {
        assert v[|v| - |s|..] == v[k..k + |s|] && s[..|s|] == s;
      }
    }
    EndsOccurs(s, v);
  }

  lemma EndsOccurs(s: Word, w: Word)
    ensures Ends(s, |s|, w) ==> Contains(w, s)
  {
    if Ends(s, |s|, w) {
      assert w[|w| - |s|..] == w[|w| - |s|..|w| - |s| + |s|] && s[..|s|] == s;
      assert OccursAt(w, s, |w| - |s|);
    }
  }

  // ----- the automaton -----

  /** Each character goes where it has to, and no character has a choice. */
  ghost predicate RowFits(s: Word, i: nat, row: set<Transition>)
    requires i < |s|
  {
    && (forall t {:trigger t in row} :: t in row ==> t.min <= t.max && t.to <= |s| && forall c: Char :: t.Covers(c) ==>
         t.to == Next(s, i, c))
    && (forall c: Char :: Covered(row, c))
    && (forall t, u {:trigger t in row, u in row} :: t in row && u in row && t != u ==> t.max < u.min || u.max < t.min)
  }

  ghost predicate IsMatcher(s: Word, g: Graph) {
    && g.initial == 0 && g.accept == {|s|} && (forall q: State {:trigger q in g.trans} :: q in g.trans <==> q <= |s|)
    && g.trans[|s|] == {Transition(MIN_CHAR, MAX_CHAR, |s|)}
    && forall i {:trigger g.trans[i]} :: 0 <= i < |s| ==> RowFits(s, i, g.trans[i])
  }

  lemma MatcherSucc(s: Word, g: Graph, q: State, c: Char)
    requires IsMatcher(s, g) && q <= |s|
    ensures g.Succ(q, c) == {if q == |s| then q else Next(s, q, c)}
  {
    if q < |s| {
      assert RowFits(s, q, g.trans[q]);
      assert Covered(g.trans[q], c);
    } else {
      assert Transition(MIN_CHAR, MAX_CHAR, |s|).Covers(c);
    }
  }

  lemma MatcherIsValid(s: Word, g: Graph)
    requires IsMatcher(s, g)
    ensures g.Valid() && g.Deterministic() && g.Total()
  {
    forall q, t | q in g.trans && t in g.trans[q] ensures t.min <= t.max && t.to in g.trans {
      assert q < |s| ==> RowFits(s, q, g.trans[q]);
    }
    forall q, t, u | q in g.trans && t in g.trans[q] && u in g.trans[q] && t != u
        ensures t.max < u.min || u.max < t.min
    {
      assert q < |s| ==> RowFits(s, q, g.trans[q]);
    }
    forall q, c: Char | q in g.trans ensures g.Succ(q, c) != {} {
      MatcherSucc(s, g, q, c);
    }
  }

  /** After w the automaton is in the final state if w contains s, and otherwise in the state that counts the longest
      prefix of s that ends w. */
  lemma {:induction false} MatcherTracks(s: Word, g: Graph, w: Word, q: State)
    requires IsMatcher(s, g)
    ensures g.Reaches(0, w, q) <==> At(s, w, q)
    decreases |w|
  {
    if w == [] {
      assert Ends(s, 0, []);
      if s == [] {
        assert OccursAt(w, s, 0);
      }
    } else {
      var u, c := w[..|w| - 1], w[|w| - 1];
      assert w == u + [c];
      var p := WhereAt(s, u);
      MatcherTracks(s, g, u, p);
      MatcherMoves(s, g, u, c, p);
      MatcherSucc(s, g, p, c);
      var r := if p == |s| then p else Next(s, p, c);
      Farther(g, 0, u, p, c, r);
      if g.Reaches(0, w, q) {
        MatcherIsValid(s, g);
        DeterministicRun(g, 0, w, q, r);
      }
    }
  }

  lemma WhereAt(s: Word, w: Word) returns (p: State)
    ensures At(s, w, p)
  {
    p := |s|;
    if !Contains(w, s) {
      p := LongestExists(s, w, |s|);
    }
  }

  lemma {:induction false} LongestExists(s: Word, w: Word, j: nat) returns (i: nat)
    requires j <= |s| && forall k {:trigger Ends(s, k, w)} :: j < k <= |s| ==> !Ends(s, k, w)
    ensures Longest(s, w, i)
  {
    if Ends(s, j, w) {
      i := j;
    } else {
      assert j != 0 by {
        assert Ends(s, 0, w);
      }
      i := LongestExists(s, w, j - 1);
    }
  }

  /** One step of the automaton keeps the meaning of its state. */
  lemma MatcherMoves(s: Word, g: Graph, u: Word, c: Char, p: State)
    requires At(s, u, p)
    ensures p <= |s| && At(s, u + [c], if p == |s| then p else Next(s, p, c))
  {
    ContainsStep(s, u, c);
    EndsOccurs(s, u);
    if !Contains(u, s) {
      LongestStep(s, u, p, c);
    }
  }

  /** The automaton accepts exactly the words that contain s. */
  lemma MatcherLanguage(s: Word, g: Graph, w: Word)
    requires IsMatcher(s, g)
    ensures g.Language(w) <==> Contains(w, s)
  {
    if g.Language(w) {
      var r := EndOfRun(g, 0, w);
      MatcherTracks(s, g, w, r);
      EndsOccurs(s, w);
    }
    if Contains(w, s) {
      MatcherTracks(s, g, w, |s|);
      RunAccepts(g, 0, w, |s|);
    }
  }

  /** The characters whose next state has been found, each with its own transition. */
  ghost predicate Found(s: Word, i: nat, j: nat, row: set<Transition>, done: set<Char>)
    requires i < |s| && j <= i
  {
    && (forall t {:trigger t in row} :: t in row ==> t.min == t.max && t.min in done && t.to == Next(s, i, t.min))
    && (forall c {:trigger c in done} :: c in done ==> Transition(c, c, Next(s, i, c)) in row)
    && (forall c: Char {:trigger c in done} :: c !in done ==> c != s[i] && Fallback(s, i, c, i) == Fallback(s, i, c, j))
  }

  /** The loop over the prefixes of s, longest first. */
  method FindRow(s: Word, i: nat) returns (row: set<Transition>, done: set<Char>)
    requires i < |s|
    ensures Found(s, i, 0, row, done)
  {
    var c := s[i];
    row, done := {Transition(c, c, i + 1)}, {c};
    var j := i;
    while j >= 1
      invariant j <= i && Found(s, i, j, row, done)
    {
      var d := s[j - 1];
      if d !in done && s[..j - 1] == s[i - j + 1..i] {
        assert Fits(s, i, j, d);
        row, done := row + {Transition(d, d, j)}, done + {d};
      }
      j := j - 1;
    }
  }

  ghost predicate InRest(rest: set<Transition>, from: int) {
    && (forall t {:trigger t in rest} :: t in rest ==> t.to == 0 && t.min <= t.max < from)
    && (forall t, u {:trigger t in rest, u in rest} :: t in rest && u in rest && t != u ==>
         t.max < u.min || u.max < t.min)
  }

  /** The loop over the gaps: every character that has no transition yet goes back to the start. */
  method FillRest(done: set<Char>) returns (rest: set<Transition>)
    ensures InRest(rest, 0x1_0002)
    ensures forall c: Char :: Covered(rest, c) <==> c !in done
  {
    var da := Ascending(done);
    rest := {};
    var from, k := MIN_CHAR as int, 0;
    while from <= MAX_CHAR
      invariant 0 <= from <= 0x1_0001 && k <= |da| && InRest(rest, from)
      invariant forall i {:trigger da[i]} :: 0 <= i < |da| ==> (i < k <==> da[i] < from)
      invariant forall c: Char :: c < from ==> (Covered(rest, c) <==> c !in done)
      decreases 0x1_0002 - from
    {
      from, k := SkipDone(da, done, from, k, rest);
      if from <= MAX_CHAR {
        ghost var from0, rest0 := from, rest;
        var to := MAX_CHAR as int;
        if k < |da| {
          assert da[k] > from;
          to := da[k] - 1;
          k := k + 1;
        }
        rest := rest + {Transition(from, to, 0)};
        from := to + 2;
        GapCovers(da, done, from0, k, to, rest0);
      }
    }
  }

  /** The inner loop: characters that have a transition. */
  method SkipDone(da: seq<Char>, ghost done: set<Char>, from0: int, k0: nat, ghost rest: set<Transition>)
      returns (from: int, k: nat)
    requires forall i, j :: 0 <= i < j < |da| ==> da[i] < da[j]
    requires (forall c: Char :: c in da <==> c in done) && 0 <= from0 <= MAX_CHAR && k0 <= |da| && InRest(rest, from0)
    requires forall i {:trigger da[i]} :: 0 <= i < |da| ==> (i < k0 <==> da[i] < from0)
    requires forall c: Char :: c < from0 ==> (Covered(rest, c) <==> c !in done)
    ensures from0 <= from <= 0x1_0000 && k0 <= k <= |da| && InRest(rest, from) && (k < |da| ==> da[k] > from)
    ensures forall i {:trigger da[i]} :: 0 <= i < |da| ==> (i < k <==> da[i] < from)
    ensures forall c: Char :: c < from ==> (Covered(rest, c) <==> c !in done)
  {
    from, k := from0, k0;
    while k < |da| && da[k] == from
      invariant from0 <= from <= 0x1_0000 && k0 <= k <= |da| && InRest(rest, from)
      invariant forall i {:trigger da[i]} :: 0 <= i < |da| ==> (i < k <==> da[i] < from)
      invariant forall c: Char :: c < from ==> (Covered(rest, c) <==> c !in done)
      decreases |da| - k
    {
      assert da[k] in done;
      assert forall t {:trigger t in rest} :: t in rest ==> t.max < from;
      k := k + 1;
      from := from + 1;
    }
  }

  lemma GapCovers(da: seq<Char>, done: set<Char>, from: int, k: nat, to: int, rest: set<Transition>)
    requires (forall i, j :: 0 <= i < j < |da| ==> da[i] < da[j]) && (forall c: Char :: c in da <==> c in done)
    requires 0 <= from <= to <= MAX_CHAR && k <= |da| && InRest(rest, from)
    requires to == MAX_CHAR || (k > 0 && da[k - 1] == to + 1)
    requires forall i {:trigger da[i]} :: 0 <= i < |da| ==> da[i] < from || to < da[i]
    requires forall c: Char :: c < from ==> (Covered(rest, c) <==> c !in done)
    ensures forall c: Char :: c < to + 2 ==> (Covered(rest + {Transition(from, to, 0)}, c) <==> c !in done)
  {
    var t := Transition(from, to, 0);
    forall c: Char | c < to + 2 ensures Covered(rest + {t}, c) <==> c !in done {
      assert Covered(rest + {t}, c) <==> Covered(rest, c) || t.Covers(c);
      if from <= c {
        assert !Covered(rest, c);
        assert c in done <==> c == to + 1 by {
          if c in done {
            var i :| 0 <= i < |da| && da[i] == c;
          }
          if c == to + 1 {
            assert da[k - 1] in done;
          }
        }
      }
    }
  }

  lemma RowIsComplete(s: Word, i: nat, row: set<Transition>, done: set<Char>, rest: set<Transition>)
    requires i < |s| && Found(s, i, 0, row, done) && InRest(rest, 0x1_0002) && forall c: Char :: Covered(rest, c) <==>
        c !in done
    ensures RowFits(s, i, row + rest)
  {
    forall t, c: Char | t in row + rest && t.Covers(c) ensures t.to == Next(s, i, c) {
      if t in rest {
        assert Covered(rest, c);
      }
    }
    forall c: Char ensures Covered(row + rest, c) {
      if c in done {
        assert Transition(c, c, Next(s, i, c)) in row + rest;
      } else {
        assert Covered(rest, c);
      }
    }
    forall t, u | t in row && u in rest ensures t.max < u.min || u.max < t.min {
      assert !Covered(rest, t.min);
      assert !u.Covers(t.min);
    }
  }

  /** An automaton that accepts the words with the given substring. */
  method MakeStringMatcher(s: Word) returns (a: Automaton)
    ensures fresh(a) && a.Valid() && a.deterministic && IsMatcher(s, a.Snapshot())
    ensures forall w :: a.Snapshot().Language(w) <==> Contains(w, s)
  {
    var trans: map<State, set<Transition>> := map[|s| := {Transition(MIN_CHAR, MAX_CHAR, |s|)}];
    for i := 0 to |s|
      invariant forall q: State {:trigger q in trans} :: q in trans <==> q < i || q == |s|
      invariant trans[|s|] == {Transition(MIN_CHAR, MAX_CHAR, |s|)}
      invariant forall k {:trigger trans[k]} :: 0 <= k < i ==> RowFits(s, k, trans[k])
    {
      var row, done := FindRow(s, i);
      var rest := FillRest(done);
      RowIsComplete(s, i, row, done, rest);
      trans := trans[i := row + rest];
    }
    var g := Graph(0, {|s|}, trans);
    assert IsMatcher(s, g);
    MatcherIsValid(s, g);
    a := new Automaton.FromGraph(g, |s| + 1, true);
    forall w ensures g.Language(w) <==> Contains(w, s) {
      MatcherLanguage(s, g, w);
    }
  }
}
