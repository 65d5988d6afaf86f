/** Automata for the decimal numerals of an interval: anyOfRightLength, atLeast, atMost, between and makeInterval. */
module Intervals {
  import opened Languages
  import opened Automata
  import opened Epsilons
  import opened Numerals

  // ----- trees that grow upwards -----

  /** The transitions lead to later states, no two of them to the same or on the same character. */
  ghost predicate GoodRow(g: Graph, q: State, row: set<Transition>) {
    && (forall t {:trigger t in row} :: t in row ==> t.min <= t.max && q < t.to && t.to in g.trans)
    && (forall t, u {:trigger t in row, u in row} :: t in row && u in row && t != u ==>
         t.to != u.to && (t.max < u.min || u.max < t.min))
  }

  /** g' has new states from n on, and the old ones as they were. */
  ghost predicate Grows(g: Graph, n: nat, g': Graph, n': nat) {
    && n <= n' && g'.initial == g.initial
    && (forall q {:trigger q in g.trans} :: q in g.trans ==>
         q in g'.trans && g'.trans[q] == g.trans[q] && (q in g'.accept <==> q in g.accept))
    && (forall q {:trigger q in g'.trans} :: q in g'.trans && q !in g.trans ==>
         n <= q < n' && GoodRow(g', q, g'.trans[q]))
  }

  ghost predicate SameFrom(g: Graph, g': Graph, q: State) {
    forall w :: g'.Accepts(q, w) <==> g.Accepts(q, w)
  }

  /** The states after s keep their right languages. */
  ghost predicate SameAbove(g: Graph, g': Graph, s: State) {
    forall q {:trigger q in g.trans} :: q in g.trans && q > s ==> q in g'.trans && SameFrom(g, g', q)
  }

  /** From the states after s only states after s are reached. */
  ghost predicate Upward(g: Graph, s: State) {
    forall q, t {:trigger t in g.trans[q]} :: q in g.trans && q > s && t in g.trans[q] ==> t.to in g.trans && t.to > s
  }

  lemma {:induction false} AboveAccepts(g: Graph, g': Graph, s: State, q: State, w: Word)
    requires Upward(g, s) && q in g.trans && q > s
    requires forall p {:trigger p in g.trans} :: p in g.trans && p > s ==>
        p in g'.trans && g'.trans[p] == g.trans[p] && (p in g'.accept <==> p in g.accept)
    ensures g'.Accepts(q, w) <==> g.Accepts(q, w)
    decreases |w|
  {
    if w != [] {
      assert g'.Succ(q, w[0]) == g.Succ(q, w[0]);
      forall p | p in g.Succ(q, w[0]) ensures g'.Accepts(p, w[1..]) <==> g.Accepts(p, w[1..]) {
        AboveAccepts(g, g', s, p, w[1..]);
      }
    }
  }

  lemma AboveKeeps(g: Graph, g': Graph, s: State)
    requires Upward(g, s)
    requires forall p {:trigger p in g.trans} :: p in g.trans && p > s ==>
        p in g'.trans && g'.trans[p] == g.trans[p] && (p in g'.accept <==> p in g.accept)
    ensures SameAbove(g, g', s)
  {
    forall q | q in g.trans && q > s ensures SameFrom(g, g', q) {
      forall w ensures g'.Accepts(q, w) <==> g.Accepts(q, w) {
        AboveAccepts(g, g', s, q, w);
      }
    }
  }

  lemma SameAboveOn(g: Graph, g': Graph, g'': Graph, s: State)
    requires SameAbove(g, g', s) && SameAbove(g', g'', s)
    ensures SameAbove(g, g'', s)
  {
    forall q | q in g.trans && q > s ensures q in g''.trans && SameFrom(g, g'', q) {
      assert SameFrom(g, g', q) && SameFrom(g', g'', q);
    }
  }

  lemma GrowsOn(g: Graph, n: nat, g': Graph, n': nat, g'': Graph, n'': nat)
    requires Grows(g, n, g', n') && Grows(g', n', g'', n'')
    ensures Grows(g, n, g'', n'')
  {
    forall q | q in g''.trans && q !in g.trans ensures n <= q < n'' && GoodRow(g'', q, g''.trans[q]) {
      if q in g'.trans {
        assert GoodRow(g', q, g'.trans[q]);
      }
    }
  }

  ghost predicate BelowNext(g: Graph, n: nat) {
    forall q {:trigger q in g.trans} :: q in g.trans ==> q < n
  }

  /** A tree under way: its root s was the first new state. */
  ghost predicate Planted(g: Graph, n: nat, g': Graph, n': nat, s: State) {
    g.Valid() && BelowNext(g, n) && g'.Valid() && BelowNext(g', n') && Grows(g, n, g', n') && s == n && s in g'.trans
  }

  lemma PlantedIsUpward(g: Graph, n: nat, g': Graph, n': nat, s: State)
    requires Planted(g, n, g', n', s)
    ensures Upward(g', s)
  {
    forall q, t | q in g'.trans && q > s && t in g'.trans[q] ensures t.to in g'.trans && t.to > s {
      assert q !in g.trans;
      assert GoodRow(g', q, g'.trans[q]);
    }
  }

  /** Something was planted beside: the older tree is as it was. */
  lemma PlantedBeside(g: Graph, n: nat, g': Graph, n': nat, s: State, g'': Graph, n'': nat, c: State)
    requires Planted(g, n, g', n', s) && Planted(g', n', g'', n'', c)
    ensures Planted(g, n, g'', n'', s) && SameAbove(g', g'', s) && s < c && g''.trans[s] == g'.trans[s]
        && (s in g''.accept <==> s in g'.accept)
  {
    GrowsOn(g, n, g', n', g'', n'');
    PlantedIsUpward(g, n, g', n', s);
    AboveKeeps(g', g'', s);
  }

  method NewState(a: Automaton) returns (s: State)
    requires a.Valid()
    modifies a
    ensures a.Valid() && a.deterministic == old(a.deterministic)
        && Planted(old(a.Snapshot()), old(a.nextId), a.Snapshot(), a.nextId, s)
    ensures a.trans[s] == {} && s !in a.accept
  {
    s := a.nextId;
    a.nextId, a.trans := a.nextId + 1, a.trans[a.nextId := {}];
  }

  /** One more transition for the root. */
  method AddTransition(a: Automaton, s: State, t: Transition, ghost g: Graph, ghost n: nat)
    requires a.Valid() && Planted(g, n, a.Snapshot(), a.nextId, s) && GoodRow(a.Snapshot(), s, a.trans[s] + {t})
    modifies a
    ensures a.Valid() && a.deterministic == old(a.deterministic) && Planted(g, n, a.Snapshot(), a.nextId, s)
    ensures a.Snapshot() == old(a.Snapshot()).(trans := old(a.trans)[s := old(a.trans)[s] + {t}])
        && a.nextId == old(a.nextId)
    ensures SameAbove(old(a.Snapshot()), a.Snapshot(), s)
  {
    ghost var before := a.Snapshot();
    PlantedIsUpward(g, n, before, a.nextId, s);
    a.trans := a.trans[s := a.trans[s] + {t}];
    AboveKeeps(before, a.Snapshot(), s);
    StillPlanted(g, n, before, a.nextId, s, t, a.Snapshot());
  }

  lemma StillPlanted(g: Graph, n: nat, g': Graph, n': nat, s: State, t: Transition, g'': Graph)
    requires Planted(g, n, g', n', s) && GoodRow(g', s, g'.trans[s] + {t})
        && g'' == g'.(trans := g'.trans[s := g'.trans[s] + {t}])
    ensures Planted(g, n, g'', n', s) && (g'.Deterministic() ==> g''.Deterministic())
  {
    forall q | q in g''.trans && q !in g.trans ensures n <= q < n' && GoodRow(g'', q, g''.trans[q]) {
      assert q != s ==> GoodRow(g', q, g'.trans[q]);
    }
  }

  /** The root accepts. */
  method Accept(a: Automaton, s: State, ghost g: Graph, ghost n: nat)
    requires a.Valid() && Planted(g, n, a.Snapshot(), a.nextId, s)
    modifies a
    ensures a.Valid() && a.deterministic == old(a.deterministic) && Planted(g, n, a.Snapshot(), a.nextId, s)
    ensures a.Snapshot() == old(a.Snapshot()).(accept := old(a.accept) + {s})
  {
    a.accept := a.accept + {s};
  }

  // ----- what the states of the trees accept -----

  ghost predicate IsAny(g: Graph, s: State, k: nat) {
    forall w :: g.Accepts(s, w) <==> |w| == k && Digits(w)
  }

  ghost predicate IsAtLeast(g: Graph, s: State, u: Word) {
    forall w :: g.Accepts(s, w) <==> |w| == |u| && Digits(w) && Le(u, w)
  }

  ghost predicate IsAtMost(g: Graph, s: State, u: Word) {
    forall w :: g.Accepts(s, w) <==> |w| == |u| && Digits(w) && Le(w, u)
  }

  ghost predicate IsBetween(g: Graph, s: State, u: Word, v: Word)
    requires |u| == |v|
  {
    forall w :: g.Accepts(s, w) <==> |w| == |u| && Digits(w) && Le(u, w) && Le(w, v)
  }

  lemma {:induction false} FirstDigit(w: Word)
    requires w != []
    ensures Digits(w) <==> IsDigit(w[0]) && Digits(w[1..])
  {
    if IsDigit(w[0]) && Digits(w[1..]) {
      forall i | 0 <= i < |w| ensures IsDigit(w[i]) {
        assert i > 0 ==> w[i] == w[1..][i - 1];
      }
    }
  }

  /** A word is accepted through the transition on its first character. */
  lemma Through(g: Graph, s: State, w: Word)
    requires w != []
    ensures g.Accepts(s, w) <==> exists t :: t in g.Out(s) && t.Covers(w[0]) && g.Accepts(t.to, w[1..])
  {
    if p :| p in g.Succ(s, w[0]) && g.Accepts(p, w[1..]) {
      var t :| t in g.Out(s) && t.Covers(w[0]) && t.to == p;
    }
    if t :| t in g.Out(s) && t.Covers(w[0]) && g.Accepts(t.to, w[1..]) {
      assert t.to in g.Succ(s, w[0]);
    }
  }

  lemma LeafAccepts(g: Graph, s: State, w: Word)
    requires s in g.accept && g.Out(s) == {}
    ensures g.Accepts(s, w) <==> w == []
  {
    if w != [] {
      Through(g, s, w);
    }
  }

  lemma AnyRow(g: Graph, s: State, child: State, k: nat)
    requires s !in g.accept && g.Out(s) == {Transition(ZERO, NINE, child)} && IsAny(g, child, k)
    ensures IsAny(g, s, k + 1)
  {
    forall w ensures g.Accepts(s, w) <==> |w| == k + 1 && Digits(w) {
      if w != [] {
        Through(g, s, w);
        FirstDigit(w);
        assert g.Accepts(child, w[1..]) <==> |w[1..]| == k && Digits(w[1..]);
      }
    }
  }

  /** The transitions of a state of atLeast. */
  function AtLeastOut(c: Char, same: State, more: State): set<Transition>
    requires IsDigit(c)
  {
    {Transition(c, c, same)} + if c < NINE then {Transition(c + 1, NINE, more)} else {}
  }

  lemma AtLeastRow(g: Graph, s: State, same: State, more: State, u: Word)
    requires u != [] && Digits(u) && s !in g.accept && g.Out(s) == AtLeastOut(u[0], same, more)
    requires IsAtLeast(g, same, u[1..]) && (u[0] < NINE ==> IsAny(g, more, |u| - 1))
    ensures IsAtLeast(g, s, u)
  {
    forall w ensures g.Accepts(s, w) <==> |w| == |u| && Digits(w) && Le(u, w) {
      if w != [] {
        Through(g, s, w);
        FirstDigit(w);
        assert g.Accepts(same, w[1..]) <==> |w[1..]| == |u[1..]| && Digits(w[1..]) && Le(u[1..], w[1..]);
        assert u[0] < NINE ==> (g.Accepts(more, w[1..]) <==> |w[1..]| == |u| - 1 && Digits(w[1..]));
      }
    }
  }

  function AtMostOut(c: Char, same: State, less: State): set<Transition>
    requires IsDigit(c)
  {
    {Transition(c, c, same)} + if c > ZERO then {Transition(ZERO, c - 1, less)} else {}
  }

  lemma AtMostRow(g: Graph, s: State, same: State, less: State, u: Word)
    requires u != [] && Digits(u) && s !in g.accept && g.Out(s) == AtMostOut(u[0], same, less)
    requires IsAtMost(g, same, u[1..]) && (u[0] > ZERO ==> IsAny(g, less, |u| - 1))
    ensures IsAtMost(g, s, u)
  {
    forall w ensures g.Accepts(s, w) <==> |w| == |u| && Digits(w) && Le(w, u) {
      if w != [] {
        Through(g, s, w);
        FirstDigit(w);
        assert g.Accepts(same, w[1..]) <==> |w[1..]| == |u[1..]| && Digits(w[1..]) && Le(w[1..], u[1..]);
        assert u[0] > ZERO ==> (g.Accepts(less, w[1..]) <==> |w[1..]| == |u| - 1 && Digits(w[1..]));
      }
    }
  }

  lemma BetweenSameRow(g: Graph, s: State, same: State, u: Word, v: Word)
    requires |u| == |v| > 0 && Digits(u) && Digits(v) && u[0] == v[0] && s !in g.accept
        && g.Out(s) == {Transition(u[0], u[0], same)}
    requires IsBetween(g, same, u[1..], v[1..])
    ensures IsBetween(g, s, u, v)
  {
    forall w ensures g.Accepts(s, w) <==> |w| == |u| && Digits(w) && Le(u, w) && Le(w, v) {
      if w != [] {
        Through(g, s, w);
        FirstDigit(w);
        assert g.Accepts(same, w[1..]) <==> |w[1..]| == |u[1..]| && Digits(w[1..]) && Le(u[1..], w[1..]) && Le(w[1..],
            v[1..]);
      }
    }
  }

  function BetweenOut(c: Char, d: Char, low: State, high: State, middle: State): set<Transition>
    requires IsDigit(c) && IsDigit(d)
  {
    {Transition(c, c, low), Transition(d, d, high)} + if c + 1 < d then {Transition(c + 1, d - 1, middle)} else {}
  }

  lemma BetweenRow(g: Graph, s: State, low: State, high: State, middle: State, u: Word, v: Word)
    requires |u| == |v| > 0 && Digits(u) && Digits(v) && u[0] < v[0] && s !in g.accept
        && g.Out(s) == BetweenOut(u[0], v[0], low, high, middle)
    requires IsAtLeast(g, low, u[1..]) && IsAtMost(g, high, v[1..]) && (u[0] + 1 < v[0] ==> IsAny(g, middle, |u| - 1))
    ensures IsBetween(g, s, u, v)
  {
    forall w ensures g.Accepts(s, w) <==> |w| == |u| && Digits(w) && Le(u, w) && Le(w, v) {
      if w != [] {
        BetweenWord(g, s, low, high, middle, u, v, w);
      }
    }
  }

  lemma BetweenWord(g: Graph, s: State, low: State, high: State, middle: State, u: Word, v: Word, w: Word)
    requires |u| == |v| > 0 && Digits(u) && Digits(v) && u[0] < v[0]
        && g.Out(s) == BetweenOut(u[0], v[0], low, high, middle) && w != []
    requires IsAtLeast(g, low, u[1..]) && IsAtMost(g, high, v[1..]) && (u[0] + 1 < v[0] ==> IsAny(g, middle, |u| - 1))
    ensures g.Accepts(s, w) <==> |w| == |u| && Digits(w) && Le(u, w) && Le(w, v)
  {
    Through(g, s, w);
    FirstDigit(w);
    assert g.Accepts(low, w[1..]) <==> |w[1..]| == |u[1..]| && Digits(w[1..]) && Le(u[1..], w[1..]);
    assert g.Accepts(high, w[1..]) <==> |w[1..]| == |v[1..]| && Digits(w[1..]) && Le(w[1..], v[1..]);
    assert u[0] + 1 < v[0] ==> (g.Accepts(middle, w[1..]) <==> |w[1..]| == |u| - 1 && Digits(w[1..]));
  }

  // ----- the recursions -----

  lemma Rest(x: Word, n: nat)
    requires n < |x|
    ensures x[n..] != [] && x[n..][0] == x[n] && x[n..][1..] == x[n + 1..] && (Digits(x) ==> Digits(x[n..]))
  {
  }

  /** Any digits, as many as x has from position n on. */
  method AnyOfRightLength(a: Automaton, x: Word, n: nat) returns (s: State)
    requires a.Valid() && n <= |x|
    modifies a
    ensures a.Valid() && a.deterministic == old(a.deterministic)
        && Planted(old(a.Snapshot()), old(a.nextId), a.Snapshot(), a.nextId, s)
    ensures IsAny(a.Snapshot(), s, |x| - n)
    decreases |x| - n
  {
    ghost var g, next := a.Snapshot(), a.nextId;
    s := NewState(a);
    ghost var g1, next1 := a.Snapshot(), a.nextId;
    if |x| == n {
      Accept(a, s, g, next);
      forall w ensures a.Snapshot().Accepts(s, w) <==> |w| == 0 && Digits(w) {
        LeafAccepts(a.Snapshot(), s, w);
      }
    } else {
      var child := AnyOfRightLength(a, x, n + 1);
      PlantedBeside(g, next, g1, next1, s, a.Snapshot(), a.nextId, child);
      AddTransition(a, s, Transition(ZERO, NINE, child), g, next);
      AnyRow(a.Snapshot(), s, child, |x| - n - 1);
    }
  }

  /** One child on an interval of characters, with any digits behind it. */
  method AddAny(a: Automaton, s: State, x: Word, n: nat, min: Char, max: Char, ghost g: Graph, ghost next: nat)
      returns (child: State)
    requires a.Valid() && Planted(g, next, a.Snapshot(), a.nextId, s) && n < |x| && min <= max
    requires GoodRow(a.Snapshot(), s, a.trans[s]) && forall t {:trigger t in a.trans[s]} :: t in a.trans[s] ==>
        t.max < min || max < t.min
    modifies a
    ensures a.Valid() && a.deterministic == old(a.deterministic) && Planted(g, next, a.Snapshot(), a.nextId, s)
    ensures a.trans[s] == old(a.trans)[s] + {Transition(min, max, child)} && (s in a.accept <==> s in old(a.accept))
    ensures GoodRow(a.Snapshot(), s, a.trans[s]) && SameAbove(old(a.Snapshot()), a.Snapshot(), s)
    ensures child > s && IsAny(a.Snapshot(), child, |x| - n - 1)
  {
    ghost var g1, next1 := a.Snapshot(), a.nextId;
    child := AnyOfRightLength(a, x, n + 1);
    ghost var g2 := a.Snapshot();
    PlantedBeside(g, next, g1, next1, s, g2, a.nextId, child);
    LateChild(g1, next1, g2, s, Transition(min, max, child));
    AddTransition(a, s, Transition(min, max, child), g, next);
    SameAboveOn(g1, g2, a.Snapshot(), s);
  }

  /** The same if it is wanted, and nothing otherwise. */
  method AddAnyIf(a: Automaton, s: State, x: Word, n: nat, wanted: bool, min: Char, max: Char, ghost g: Graph,
      ghost next: nat) returns (child: State)
    requires a.Valid() && Planted(g, next, a.Snapshot(), a.nextId, s) && n < |x| && GoodRow(a.Snapshot(), s, a.trans[s])
    requires wanted ==> min <= max && forall t {:trigger t in a.trans[s]} :: t in a.trans[s] ==>
        t.max < min || max < t.min
    modifies a
    ensures a.Valid() && a.deterministic == old(a.deterministic) && Planted(g, next, a.Snapshot(), a.nextId, s)
    ensures a.trans[s] == old(a.trans)[s] + (if wanted then {Transition(min, max, child)} else {})
        && (s in a.accept <==> s in old(a.accept))
    ensures SameAbove(old(a.Snapshot()), a.Snapshot(), s)
    ensures wanted ==> IsAny(a.Snapshot(), child, |x| - n - 1)
  {
    child := s;
    if wanted {
      child := AddAny(a, s, x, n, min, max, g, next);
    }
  }

  /** A transition to a child planted last, on characters not used yet. */
  lemma LateChild(g: Graph, n: nat, g': Graph, s: State, t: Transition)
    requires BelowNext(g, n) && s in g.trans && s in g'.trans && GoodRow(g, s, g.trans[s]) && g'.trans[s] == g.trans[s]
        && t.to in g'.trans && t.to >= n && t.min <= t.max
    requires (forall q {:trigger q in g.trans} :: q in g.trans ==> q in g'.trans)
    requires forall u {:trigger u in g.trans[s]} :: u in g.trans[s] ==> u.max < t.min || t.max < u.min
    ensures GoodRow(g', s, g'.trans[s] + {t})
  {
  }

  // ----- the states that a numeral with fewer digits starts from -----

  /** How many states begin with zeros only. */
  function ZeroCount(x: Word, n: nat, zeros: bool): nat
    requires n <= |x|
    decreases |x| - n
  {
    if !zeros || n == |x| then 0 else 1 + ZeroCount(x, n + 1, x[n] == ZERO)
  }

  /** The k-th of the states accepts what s accepts after k zeros. */
  ghost predicate Skips(g: Graph, s: State, initials: seq<State>) {
    forall k {:trigger initials[k]} :: 0 <= k < |initials| ==>
        initials[k] in g.trans && initials[k] >= s && SkipsAt(g, s, initials[k], k)
  }

  ghost predicate SkipsAt(g: Graph, s: State, p: State, k: nat) {
    forall v :: g.Accepts(p, v) <==> g.Accepts(s, Zeros(k) + v)
  }

  lemma SkipsKept(g: Graph, g': Graph, s: State, c: State, initials: seq<State>)
    requires Skips(g, c, initials) && SameAbove(g, g', s) && c > s && c in g.trans
    ensures Skips(g', c, initials)
  {
    forall k | 0 <= k < |initials| ensures initials[k] in g'.trans && SkipsAt(g', c, initials[k], k) {
      assert SameFrom(g, g', initials[k]) && SameFrom(g, g', c) && SkipsAt(g, c, initials[k], k);
    }
  }

  /** One more zero in front. */
  lemma SkipsOneMore(g: Graph, s: State, t: Transition, initials: seq<State>, zeros: bool)
    requires s in g.trans && (initials != [] ==> zeros) && t in g.trans[s] && (zeros ==> t.min == t.max == ZERO)
    requires Skips(g, t.to, initials) && t.to > s && forall u {:trigger u in g.trans[s]} ::
        u in g.trans[s] && u != t && zeros ==> !u.Covers(ZERO)
    ensures Skips(g, s, [s] + initials)
  {
    var all := [s] + initials;
    forall k | 0 <= k < |all| ensures all[k] in g.trans && all[k] >= s && SkipsAt(g, s, all[k], k) {
      if k == 0 {
        forall v ensures Zeros(0) + v == v {}
      } else {
        assert all[k] == initials[k - 1] && SkipsAt(g, t.to, initials[k - 1], k - 1);
        forall v ensures g.Accepts(all[k], v) <==> g.Accepts(s, Zeros(k) + v) {
          var w := Zeros(k) + v;
          assert w[0] == ZERO && w[1..] == Zeros(k - 1) + v;
          Through(g, s, w);
        }
      }
    }
  }

  // ----- atMost, atLeast and between -----

  /** Numerals of the length of x[n..] that are at most it. */
  method AtMost(a: Automaton, x: Word, n: nat) returns (s: State)
    requires a.Valid() && n <= |x| && Digits(x)
    modifies a
    ensures a.Valid() && a.deterministic == old(a.deterministic)
        && Planted(old(a.Snapshot()), old(a.nextId), a.Snapshot(), a.nextId, s)
    ensures IsAtMost(a.Snapshot(), s, x[n..])
    decreases |x| - n
  {
    ghost var g, next := a.Snapshot(), a.nextId;
    s := NewState(a);
    ghost var g1, next1 := a.Snapshot(), a.nextId;
    if |x| == n {
      Accept(a, s, g, next);
      forall w ensures a.Snapshot().Accepts(s, w) <==> |w| == 0 && Digits(w) {
        LeafAccepts(a.Snapshot(), s, w);
      }
    } else {
      var same := AtMost(a, x, n + 1);
      PlantedBeside(g, next, g1, next1, s, a.Snapshot(), a.nextId, same);
      AtMostRest(a, x, n, s, same, g, next);
    }
  }

  /** The transitions of a state of atMost, its child for the same digit being there. */
  method AtMostRest(a: Automaton, x: Word, n: nat, s: State, same: State, ghost g: Graph, ghost next: nat)
    requires a.Valid() && n < |x| && Digits(x) && Planted(g, next, a.Snapshot(), a.nextId, s) && a.trans[s] == {}
        && s !in a.accept
    requires same > s && same in a.trans && IsAtMost(a.Snapshot(), same, x[n + 1..])
    modifies a
    ensures a.Valid() && a.deterministic == old(a.deterministic) && Planted(g, next, a.Snapshot(), a.nextId, s)
    ensures IsAtMost(a.Snapshot(), s, x[n..])
  {
    Rest(x, n);
    var c := x[n];
    ghost var g2 := a.Snapshot();
    AddTransition(a, s, Transition(c, c, same), g, next);
    ghost var g3 := a.Snapshot();
    KeptAtMost(g2, g3, s, same, x[n + 1..]);
    var less := AddAnyIf(a, s, x, n, c > ZERO, ZERO, if c > ZERO then c - 1 else c, g, next);
    KeptAtMost(g3, a.Snapshot(), s, same, x[n + 1..]);
    assert a.trans[s] == AtMostOut(c, same, less);
    AtMostRow(a.Snapshot(), s, same, less, x[n..]);
  }

  lemma KeptAtMost(g: Graph, g': Graph, s: State, c: State, u: Word)
    requires SameAbove(g, g', s) && c in g.trans && c > s && IsAtMost(g, c, u)
    ensures IsAtMost(g', c, u)
  {
    assert SameFrom(g, g', c);
  }

  lemma KeptAtLeast(g: Graph, g': Graph, s: State, c: State, u: Word)
    requires SameAbove(g, g', s) && c in g.trans && c > s && IsAtLeast(g, c, u)
    ensures IsAtLeast(g', c, u)
  {
    assert SameFrom(g, g', c);
  }

  lemma KeptBetween(g: Graph, g': Graph, s: State, c: State, u: Word, v: Word)
    requires |u| == |v| && SameAbove(g, g', s) && c in g.trans && c > s && IsBetween(g, c, u, v)
    ensures IsBetween(g', c, u, v)
  {
    assert SameFrom(g, g', c);
  }

  /** Numerals of the length of x[n..] that are at least it. The states that begin with zeros only are told apart. */
  method AtLeast(a: Automaton, x: Word, n: nat, zeros: bool) returns (s: State, initials: seq<State>)
    requires a.Valid() && n <= |x| && Digits(x)
    modifies a
    ensures a.Valid() && a.deterministic == old(a.deterministic)
        && Planted(old(a.Snapshot()), old(a.nextId), a.Snapshot(), a.nextId, s)
    ensures IsAtLeast(a.Snapshot(), s, x[n..])
    ensures Skips(a.Snapshot(), s, initials) && |initials| == ZeroCount(x, n, zeros)
    decreases |x| - n
  {
    ghost var g, next := a.Snapshot(), a.nextId;
    s := NewState(a);
    initials := [];
    ghost var g1, next1 := a.Snapshot(), a.nextId;
    if |x| == n {
      Accept(a, s, g, next);
      forall w ensures a.Snapshot().Accepts(s, w) <==> |w| == 0 && Digits(w) {
        LeafAccepts(a.Snapshot(), s, w);
      }
    } else {
      Rest(x, n);
      var c := x[n];
      var same, below := AtLeast(a, x, n + 1, zeros && c == ZERO);
      PlantedBeside(g, next, g1, next1, s, a.Snapshot(), a.nextId, same);
      initials := AtLeastRest(a, x, n, zeros, s, same, below, g, next);
    }
  }

  /** The transitions of a state of atLeast, its child for the same digit being there. */
  method AtLeastRest(a: Automaton, x: Word, n: nat, zeros: bool, s: State, same: State, below: seq<State>,
      ghost g: Graph, ghost next: nat) returns (initials: seq<State>)
    requires a.Valid() && n < |x| && Digits(x) && Planted(g, next, a.Snapshot(), a.nextId, s) && a.trans[s] == {}
        && s !in a.accept
    requires same > s && same in a.trans && IsAtLeast(a.Snapshot(), same, x[n + 1..])
    requires Skips(a.Snapshot(), same, below) && |below| == ZeroCount(x, n + 1, zeros && x[n] == ZERO)
    modifies a
    ensures a.Valid() && a.deterministic == old(a.deterministic) && Planted(g, next, a.Snapshot(), a.nextId, s)
    ensures IsAtLeast(a.Snapshot(), s, x[n..])
    ensures Skips(a.Snapshot(), s, initials) && |initials| == ZeroCount(x, n, zeros)
  {
    Rest(x, n);
    var c := x[n];
    ghost var g2 := a.Snapshot();
    AddTransition(a, s, Transition(c, c, same), g, next);
    ghost var g3 := a.Snapshot();
    KeptAtLeast(g2, g3, s, same, x[n + 1..]);
    SkipsKept(g2, g3, s, same, below);
    var more := AddAnyIf(a, s, x, n, c < NINE, if c < NINE then c + 1 else c, NINE, g, next);
    KeptAtLeast(g3, a.Snapshot(), s, same, x[n + 1..]);
    SkipsKept(g3, a.Snapshot(), s, same, below);
    initials := WithStart(zeros, s, below);
    AtLeastDone(a.Snapshot(), s, same, more, x, n, zeros, below);
  }

  /** The start is added in front of what was found below it. */
  function WithStart(zeros: bool, s: State, below: seq<State>): seq<State> {
    if zeros then [s] + below else []
  }

  lemma AtLeastDone(g: Graph, s: State, same: State, more: State, x: Word, n: nat, zeros: bool, below: seq<State>)
    requires n < |x| && Digits(x) && s in g.trans && g.trans[s] == AtLeastOut(x[n], same, more) && s !in g.accept
        && same > s
    requires IsAtLeast(g, same, x[n + 1..]) && (x[n] < NINE ==> IsAny(g, more, |x| - n - 1))
    requires Skips(g, same, below) && |below| == ZeroCount(x, n + 1, zeros && x[n] == ZERO)
    ensures IsAtLeast(g, s, x[n..]) && Skips(g, s, WithStart(zeros, s, below))
        && |WithStart(zeros, s, below)| == ZeroCount(x, n, zeros)
  {
    Rest(x, n);
    AtLeastRow(g, s, same, more, x[n..]);
    SkipsOneMore(g, s, Transition(x[n], x[n], same), below, zeros && x[n] == ZERO);
  }

  /** Numerals of the length of x[n..] between it and y[n..]. */
  method Between(a: Automaton, x: Word, y: Word, n: nat, zeros: bool) returns (s: State, initials: seq<State>)
    requires a.Valid() && n <= |x| == |y| && Digits(x) && Digits(y) && Le(x[n..], y[n..])
    modifies a
    ensures a.Valid() && a.deterministic == old(a.deterministic)
        && Planted(old(a.Snapshot()), old(a.nextId), a.Snapshot(), a.nextId, s)
    ensures IsBetween(a.Snapshot(), s, x[n..], y[n..])
    ensures Skips(a.Snapshot(), s, initials) && |initials| == ZeroCount(x, n, zeros)
    decreases |x| - n
  {
    ghost var g, next := a.Snapshot(), a.nextId;
    s := NewState(a);
    initials := [];
    ghost var g1, next1 := a.Snapshot(), a.nextId;
    if |x| == n {
      Accept(a, s, g, next);
      forall w ensures a.Snapshot().Accepts(s, w) <==> |w| == 0 && Digits(w) {
        LeafAccepts(a.Snapshot(), s, w);
      }
    } else if x[n] == y[n] {
      Rest(x, n);
      Rest(y, n);
      var same, below := Between(a, x, y, n + 1, zeros && x[n] == ZERO);
      PlantedBeside(g, next, g1, next1, s, a.Snapshot(), a.nextId, same);
      initials := BetweenSame(a, x, y, n, zeros, s, same, below, g, next);
    } else {
      Rest(x, n);
      Rest(y, n);
      var low, below := AtLeast(a, x, n + 1, zeros && x[n] == ZERO);
      PlantedBeside(g, next, g1, next1, s, a.Snapshot(), a.nextId, low);
      initials := BetweenRest(a, x, y, n, zeros, s, low, below, g, next);
    }
  }

  method BetweenSame(a: Automaton, x: Word, y: Word, n: nat, zeros: bool, s: State, same: State, below: seq<State>,
      ghost g: Graph, ghost next: nat) returns (initials: seq<State>)
    requires a.Valid() && n < |x| == |y| && Digits(x) && Digits(y) && x[n] == y[n]
        && Planted(g, next, a.Snapshot(), a.nextId, s) && a.trans[s] == {} && s !in a.accept
    requires same > s && same in a.trans && IsBetween(a.Snapshot(), same, x[n + 1..], y[n + 1..])
    requires Skips(a.Snapshot(), same, below) && |below| == ZeroCount(x, n + 1, zeros && x[n] == ZERO)
    modifies a
    ensures a.Valid() && a.deterministic == old(a.deterministic) && Planted(g, next, a.Snapshot(), a.nextId, s)
    ensures IsBetween(a.Snapshot(), s, x[n..], y[n..])
    ensures Skips(a.Snapshot(), s, initials) && |initials| == ZeroCount(x, n, zeros)
  {
    Rest(x, n);
    Rest(y, n);
    ghost var g2 := a.Snapshot();
    AddTransition(a, s, Transition(x[n], x[n], same), g, next);
    KeptBetween(g2, a.Snapshot(), s, same, x[n + 1..], y[n + 1..]);
    SkipsKept(g2, a.Snapshot(), s, same, below);
    BetweenSameRow(a.Snapshot(), s, same, x[n..], y[n..]);
    initials := WithStart(zeros, s, below);
    SkipsOneMore(a.Snapshot(), s, Transition(x[n], x[n], same), below, zeros && x[n] == ZERO);
  }

  /** The transitions of a state of between at the first digit that differs. */
  method BetweenRest(a: Automaton, x: Word, y: Word, n: nat, zeros: bool, s: State, low: State, below: seq<State>,
      ghost g: Graph, ghost next: nat) returns (initials: seq<State>)
    requires a.Valid() && n < |x| == |y| && Digits(x) && Digits(y) && x[n] < y[n]
        && Planted(g, next, a.Snapshot(), a.nextId, s) && a.trans[s] == {} && s !in a.accept
    requires low > s && low in a.trans && IsAtLeast(a.Snapshot(), low, x[n + 1..])
    requires Skips(a.Snapshot(), low, below) && |below| == ZeroCount(x, n + 1, zeros && x[n] == ZERO)
    modifies a
    ensures a.Valid() && a.deterministic == old(a.deterministic) && Planted(g, next, a.Snapshot(), a.nextId, s)
    ensures IsBetween(a.Snapshot(), s, x[n..], y[n..])
    ensures Skips(a.Snapshot(), s, initials) && |initials| == ZeroCount(x, n, zeros)
  {
    Rest(x, n);
    Rest(y, n);
    var cx, cy := x[n], y[n];
    ghost var g2 := a.Snapshot();
    AddTransition(a, s, Transition(cx, cx, low), g, next);
    ghost var g3, next3 := a.Snapshot(), a.nextId;
    KeptAtLeast(g2, g3, s, low, x[n + 1..]);
    SkipsKept(g2, g3, s, low, below);
    var high := AtMost(a, y, n + 1);
    ghost var g4 := a.Snapshot();
    PlantedBeside(g, next, g3, next3, s, g4, a.nextId, high);
    LateChild(g3, next3, g4, s, Transition(cy, cy, high));
    KeptAtLeast(g3, g4, s, low, x[n + 1..]);
    SkipsKept(g3, g4, s, low, below);
    AddTransition(a, s, Transition(cy, cy, high), g, next);
    KeptAtLeast(g4, a.Snapshot(), s, low, x[n + 1..]);
    SkipsKept(g4, a.Snapshot(), s, low, below);
    KeptAtMost(g4, a.Snapshot(), s, high, y[n + 1..]);
    initials := BetweenMiddle(a, x, y, n, zeros, s, low, high, below, g, next);
  }

  method BetweenMiddle(a: Automaton, x: Word, y: Word, n: nat, zeros: bool, s: State, low: State, high: State,
      below: seq<State>, ghost g: Graph, ghost next: nat) returns (initials: seq<State>)
    requires a.Valid() && n < |x| == |y| && Digits(x) && Digits(y) && x[n] < y[n]
        && Planted(g, next, a.Snapshot(), a.nextId, s) && s !in a.accept
    requires a.trans[s] == {Transition(x[n], x[n], low), Transition(y[n], y[n], high)}
        && GoodRow(a.Snapshot(), s, a.trans[s])
    requires low > s && low in a.trans && IsAtLeast(a.Snapshot(), low, x[n + 1..]) && high > s && high in a.trans
        && IsAtMost(a.Snapshot(), high, y[n + 1..])
    requires Skips(a.Snapshot(), low, below) && |below| == ZeroCount(x, n + 1, zeros && x[n] == ZERO)
    modifies a
    ensures a.Valid() && a.deterministic == old(a.deterministic) && Planted(g, next, a.Snapshot(), a.nextId, s)
    ensures IsBetween(a.Snapshot(), s, x[n..], y[n..])
    ensures Skips(a.Snapshot(), s, initials) && |initials| == ZeroCount(x, n, zeros)
  {
    Rest(x, n);
    Rest(y, n);
    var cx, cy := x[n], y[n];
    ghost var g5 := a.Snapshot();
    var middle := AddAnyIf(a, s, x, n, cx + 1 < cy, cx + 1, cy - 1, g, next);
    KeptAtLeast(g5, a.Snapshot(), s, low, x[n + 1..]);
    SkipsKept(g5, a.Snapshot(), s, low, below);
    KeptAtMost(g5, a.Snapshot(), s, high, y[n + 1..]);
    initials := WithStart(zeros, s, below);
    BetweenDone(a.Snapshot(), s, low, high, middle, x, y, n, zeros, below);
  }

  lemma BetweenDone(g: Graph, s: State, low: State, high: State, middle: State, x: Word, y: Word, n: nat, zeros: bool,
      below: seq<State>)
    requires n < |x| == |y| && Digits(x) && Digits(y) && x[n] < y[n] && s in g.trans && s !in g.accept && low > s
    requires g.trans[s] == BetweenOut(x[n], y[n], low, high, middle)
    requires IsAtLeast(g, low, x[n + 1..]) && IsAtMost(g, high, y[n + 1..]) && (x[n] + 1 < y[n] ==>
        IsAny(g, middle, |x| - n - 1))
    requires Skips(g, low, below) && |below| == ZeroCount(x, n + 1, zeros && x[n] == ZERO)
    ensures IsBetween(g, s, x[n..], y[n..]) && Skips(g, s, WithStart(zeros, s, below))
        && |WithStart(zeros, s, below)| == ZeroCount(x, n, zeros)
  {
    Rest(x, n);
    Rest(y, n);
    BetweenRow(g, s, low, high, middle, x[n..], y[n..]);
    SkipsOneMore(g, s, Transition(x[n], x[n], low), below, zeros && x[n] == ZERO);
  }
}
