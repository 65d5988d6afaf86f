/** makeInterval: the numerals of an interval of numbers, with a fixed number of digits or with any number of leading
    zeros. */
module NumericIntervals {
  import opened Languages
  import opened Automata
  import opened Epsilons
  import opened Numerals
  import opened Intervals

  /** What makeInterval promises to accept: with so many digits if digits is positive, with any number of leading zeros
      otherwise. */
  ghost predicate Spells(w: Word, min: nat, max: nat, digits: int) {
    (if digits > 0 then |w| == digits else |w| >= 1) && Numeral(w) && min <= Number(w) <= max
  }

  /** Some string of exactly so many digits spells the number. */
  ghost predicate HasNumeral(n: nat, digits: nat) {
    exists w: Word :: |w| == digits && Numeral(w) && Number(w) == n
  }

  lemma FitsIffHasNumeral(n: nat, digits: nat)
    requires digits > 0
    ensures |Decimal(n)| <= digits <==> HasNumeral(n, digits)
  {
    if |Decimal(n)| <= digits {
      var w := Zeros(digits - |Decimal(n)|) + Decimal(n);
      ZerosInFront(digits - |Decimal(n)|, Decimal(n));
      DecimalValue(n);
      ValueIsNumber(w);
    } else {
      DecimalIsLong(n, digits);
      forall w: Word | |w| == digits && Numeral(w) ensures Number(w) != n {
        ValueIsNumber(w);
        ValueBound(w);
      }
    }
  }

  /** One digit is spelled by its character. */
  lemma OneDigit(d: nat)
    requires d <= 9
    ensures HasNumeral(d, 1) && forall w :: Spells(w, d, d, 1) <==> w == ['0' as int + d]
  {
    forall w ensures Spells(w, d, d, 1) <==> w == ['0' as int + d] {
      if |w| == 1 {
        assert w[..0] == [] && w == [w[0]];
        assert Number(w) == w[0] - '0' as int;
      }
    }
    assert Spells(['0' as int + d], d, d, 1);
  }

  ghost predicate InInterval(w: Word, min: nat, max: nat, digits: int) {
    (if digits > 0 then |w| == digits else |w| >= 1) && Digits(w) && min <= Value(w) <= max
  }

  // ----- epsilon transitions that leave the start only -----

  ghost predicate NeverBack(g: Graph, s: State) {
    forall q, t {:trigger t in g.trans[q]} :: q in g.trans && t in g.trans[q] ==> t.to != s
  }

  ghost predicate FromStart(pairs: set<StatePair>, s: State) {
    forall p {:trigger p in pairs} :: p in pairs ==> p.0 == s && p.1 != s
  }

  lemma {:induction false} AcceptsTraces(g: Graph, pairs: set<StatePair>, q: State, w: Word)
    requires g.Accepts(q, w)
    ensures EpsilonAccepts(g, pairs, q, w)
    decreases |w|
  {
    if w == [] {
      assert Label([]) == [] && Traces(g, pairs, q, []);
    } else {
      var p :| p in g.Succ(q, w[0]) && g.Accepts(p, w[1..]);
      AcceptsTraces(g, pairs, p, w[1..]);
      var moves :| Label(moves) == w[1..] && Traces(g, pairs, p, moves);
      var moves' := [Read(w[0], p)] + moves;
      assert moves'[1..] == moves && Label(moves') == [w[0]] + w[1..] == w;
      assert Traces(g, pairs, q, moves');
    }
  }

  /** Away from the start there are no epsilon moves. */
  lemma {:induction false} NoEpsilons(g: Graph, pairs: set<StatePair>, s: State, q: State, moves: seq<Move>)
    requires NeverBack(g, s) && FromStart(pairs, s) && q != s && Traces(g, pairs, q, moves)
    ensures g.Accepts(q, Label(moves))
    decreases |moves|
  {
    if moves != [] {
      var p := moves[0].to;
      assert moves[0].Read? by {
        assert moves[0].Eps? ==> (q, p) in pairs;
      }
      var t :| t in g.Out(q) && t.Covers(moves[0].c) && t.to == p;
      NoEpsilons(g, pairs, s, p, moves[1..]);
      assert Label(moves)[1..] == Label(moves[1..]);
    }
  }

  lemma StartAccepts(g: Graph, pairs: set<StatePair>, s: State, w: Word)
    requires NeverBack(g, s) && FromStart(pairs, s)
    ensures EpsilonAccepts(g, pairs, s, w) <==> g.Accepts(s, w) || exists p :: (s, p) in pairs && g.Accepts(p, w)
  {
    if moves: seq<Move> :| Label(moves) == w && Traces(g, pairs, s, moves) {
      if moves != [] {
        var p := moves[0].to;
        if moves[0].Eps? {
          NoEpsilons(g, pairs, s, p, moves[1..]);
        } else {
          var t :| t in g.Out(s) && t.Covers(moves[0].c) && t.to == p;
          NoEpsilons(g, pairs, s, p, moves[1..]);
          assert w[1..] == Label(moves[1..]) && p in g.Succ(s, w[0]);
        }
      }
    }
    if g.Accepts(s, w) {
      AcceptsTraces(g, pairs, s, w);
    }
    if p :| (s, p) in pairs && g.Accepts(p, w) {
      AcceptsTraces(g, pairs, p, w);
      assert [p][1..] == [] && Leads(pairs, s, [p], p);
      AfterEpsilons(g, pairs, s, [p], p, w);
    }
  }

  // ----- the loop on the start -----

  function LoopOn(g: Graph, s: State): Graph
    requires s in g.trans
  {
    g.(trans := g.trans[s := g.trans[s] + {Transition(ZERO, ZERO, s)}])
  }

  lemma {:induction false} LoopElsewhere(g: Graph, s: State, q: State, w: Word)
    requires s in g.trans && NeverBack(g, s) && q != s
    ensures LoopOn(g, s).Accepts(q, w) <==> g.Accepts(q, w)
    decreases |w|
  {
    if w != [] {
      assert LoopOn(g, s).Succ(q, w[0]) == g.Succ(q, w[0]);
      forall p | p in g.Succ(q, w[0]) ensures LoopOn(g, s).Accepts(p, w[1..]) <==> g.Accepts(p, w[1..]) {
        LoopElsewhere(g, s, p, w[1..]);
      }
    }
  }

  ghost predicate AfterZeros(g: Graph, s: State, w: Word, j: nat) {
    j <= |w| && w[..j] == Zeros(j) && g.Accepts(s, w[j..])
  }

  lemma LoopStep(g: Graph, s: State, w: Word)
    requires s in g.trans && NeverBack(g, s) && w != []
    ensures LoopOn(g, s).Accepts(s, w) <==> g.Accepts(s, w) || (w[0] == ZERO && LoopOn(g, s).Accepts(s, w[1..]))
  {
    var h := LoopOn(g, s);
    assert h.Succ(s, w[0]) == g.Succ(s, w[0]) + if w[0] == ZERO then {s} else {} by {
      assert Transition(ZERO, ZERO, s) in h.Out(s);
    }
    forall p | p in g.Succ(s, w[0]) ensures p != s && (h.Accepts(p, w[1..]) <==> g.Accepts(p, w[1..])) {
      LoopElsewhere(g, s, p, w[1..]);
    }
  }

  /** The loop reads zeros in front. */
  lemma {:induction false} LoopAccepts(g: Graph, s: State, w: Word)
    requires s in g.trans && NeverBack(g, s)
    ensures LoopOn(g, s).Accepts(s, w) <==> exists j: nat :: AfterZeros(g, s, w, j)
    decreases |w|
  {
    assert w[..0] == [] == Zeros(0) && w[0..] == w;
    if w == [] {
      assert AfterZeros(g, s, w, 0) <==> g.Accepts(s, w);
    } else {
      LoopStep(g, s, w);
      LoopAccepts(g, s, w[1..]);
      assert g.Accepts(s, w) ==> AfterZeros(g, s, w, 0);
      if w[0] == ZERO && LoopOn(g, s).Accepts(s, w[1..]) {
        var j: nat :| AfterZeros(g, s, w[1..], j);
        assert w[..j + 1] == [w[0]] + w[1..][..j] && w[j + 1..] == w[1..][j..];
        assert AfterZeros(g, s, w, j + 1);
      }
      if j: nat :| AfterZeros(g, s, w, j) {
        if j > 0 {
          assert w[0] == w[..j][0] && w[1..][..j - 1] == w[..j][1..] && w[1..][j - 1..] == w[j..];
          assert AfterZeros(g, s, w[1..], j - 1);
        }
      }
    }
  }

  // ----- the numbers -----

  lemma {:induction false} ZeroCountCounts(x: Word, n: nat, k: nat)
    requires n <= |x| && k < |x| - n && forall i :: n <= i < n + k ==> x[i] == ZERO
    ensures k < ZeroCount(x, n, true)
    decreases |x| - n
  {
    if k > 0 {
      ZeroCountCounts(x, n + 1, k - 1);
    }
  }

  lemma {:induction false} ZeroCountBound(x: Word, n: nat, zeros: bool)
    requires n <= |x|
    ensures ZeroCount(x, n, zeros) <= |x| - n
    decreases |x| - n
  {
    if zeros && n < |x| {
      ZeroCountBound(x, n + 1, x[n] == ZERO);
    }
  }

  lemma {:induction false} DigitsConcat(u: Word, v: Word)
    ensures Digits(u + v) <==> Digits(u) && Digits(v)
  {
    if Digits(u + v) {
      forall i | 0 <= i < |u| ensures IsDigit(u[i]) {
        assert (u + v)[i] == u[i];
      }
      forall i | 0 <= i < |v| ensures IsDigit(v[i]) {
        assert (u + v)[|u| + i] == v[i];
      }
    }
  }

  /** Zeros in front, some of which the numerals may leave out and some of which they may add. */
  ghost predicate Fits(x: Word, y: Word, w: Word, j: nat, k: nat)
    requires |x| == |y|
  {
    && j <= |w| && w[..j] == Zeros(j) && k < ZeroCount(x, 0, true)
    && (var u := Zeros(k) + w[j..]; |u| == |x| && Digits(u) && Le(x, u) && Le(u, y))
  }

  lemma FitsInside(x: Word, y: Word, w: Word, j: nat, k: nat)
    requires |x| == |y| && Digits(x) && Digits(y) && Fits(x, y, w, j, k)
    ensures InInterval(w, Value(x), Value(y), 0)
  {
    var u := Zeros(k) + w[j..];
    ZeroCountBound(x, 0, true);
    assert w == w[..j] + w[j..];
    DigitsConcat(w[..j], w[j..]);
    DigitsConcat(Zeros(k), w[j..]);
    ZerosInFront(j, w[j..]);
    ZerosInFront(k, w[j..]);
    LeIffValue(x, u);
    LeIffValue(u, y);
  }

  lemma InsideFits(x: Word, y: Word, w: Word) returns (j: nat, k: nat)
    requires |x| == |y| > 0 && Digits(x) && Digits(y) && InInterval(w, Value(x), Value(y), 0)
    ensures Fits(x, y, w, j, k)
  {
    if |w| >= |x| {
      j, k := |w| - |x|, 0;
      ValueBound(y);
      SmallBeginsWithZeros(w, j);
      ZeroCountCounts(x, 0, 0);
    } else {
      j, k := 0, |x| - |w|;
      ValueBound(w);
      SmallBeginsWithZeros(x, k);
      forall i | 0 <= i < k ensures x[i] == ZERO {
        assert x[..k][i] == x[i];
      }
      ZeroCountCounts(x, 0, k);
    }
    var u := Zeros(k) + w[j..];
    assert w == w[..j] + w[j..];
    DigitsConcat(w[..j], w[j..]);
    ZerosInFront(j, w[j..]);
    ZerosInFront(k, w[j..]);
    LeIffValue(x, u);
    LeIffValue(u, y);
  }

  // ----- makeInterval -----

  /** The automaton, or the exception for an empty interval or too few digits. */
  datatype Outcome = Made(a: Automaton) | IllegalArgument

  /** Zeros in front until the length is d. */
  method Pad(x: Word, d: nat) returns (r: Word)
    requires Digits(x)
    ensures r == (if |x| <= d then Zeros(d - |x|) else []) + x
    ensures Digits(r) && Value(r) == Value(x)
  {
    var b: Word := [];
    var i := |x|;
    while i < d
      invariant |x| <= i && (i <= d || i == |x|) && b == Zeros(i - |x|)
    {
      b, i := [ZERO] + b, i + 1;
    }
    r := b + x;
    ZerosInFront(|b|, x);
  }

  /** Makes the planted tree the automaton. */
  method Root(a: Automaton, s: State, ghost g: Graph)
    requires a.Valid() && s in a.trans && g == a.Snapshot()
    modifies a`initial
    ensures a.Valid() && a.initial == s && a.Snapshot() == g.(initial := s)
    ensures forall q {:trigger SameFrom(g, a.Snapshot(), q)} :: SameFrom(g, a.Snapshot(), q)
  {
    a.initial := s;
    forall q, w ensures a.Snapshot().Accepts(q, w) <==> g.Accepts(q, w) {
      assert forall p, c: Char :: a.Snapshot().Succ(p, c) == g.Succ(p, c);
      SameSuccessorsAgree(a.Snapshot(), g, q, w);
    }
  }

  /** A planted tree on nothing is reduced, and nothing leads back to its root. */
  lemma PlantedAlone(g: Graph, n: nat, g': Graph, n': nat, s: State)
    requires Planted(g, n, g', n', s) && g.trans == map[0 := {}] && n == 1
    ensures g'.Reduced() && NeverBack(g', s)
  {
    forall q, t | q in g'.trans && t in g'.trans[q] ensures t.to != s {
      assert q !in g.trans ==> GoodRow(g', q, g'.trans[q]);
    }
    forall q, t, u | q in g'.trans && t in g'.trans[q] && u in g'.trans[q] && t != u ensures t.to != u.to {
      assert q !in g.trans ==> GoodRow(g', q, g'.trans[q]);
    }
  }

  /** The tree for numerals of one length. */
  method Tree(x: Word, y: Word, zeros: bool) returns (a: Automaton, initials: seq<State>)
    requires |x| == |y| && Digits(x) && Digits(y) && Le(x, y)
    ensures fresh(a) && a.Valid() && a.deterministic && a.Snapshot().Reduced() && NeverBack(a.Snapshot(), a.initial)
    ensures IsBetween(a.Snapshot(), a.initial, x, y)
    ensures Skips(a.Snapshot(), a.initial, initials) && |initials| == ZeroCount(x, 0, zeros)
  {
    a := new Automaton();
    ghost var g := a.Snapshot();
    assert x[0..] == x && y[0..] == y;
    var s;
    s, initials := Between(a, x, y, 0, zeros);
    ghost var g' := a.Snapshot();
    PlantedAlone(g, 1, g', a.nextId, s);
    Root(a, s, g');
    SkipsSame(g', a.Snapshot(), s, initials);
    assert SameFrom(g', a.Snapshot(), s);
  }

  lemma SkipsSame(g: Graph, h: Graph, s: State, initials: seq<State>)
    requires Skips(g, s, initials) && h.trans == g.trans && forall q {:trigger SameFrom(g, h, q)} :: SameFrom(g, h, q)
    ensures Skips(h, s, initials)
  {
    forall k | 0 <= k < |initials| ensures SkipsAt(h, s, initials[k], k) {
      assert SameFrom(g, h, initials[k]) && SameFrom(g, h, s) && SkipsAt(g, s, initials[k], k);
    }
  }

  /** Leading zeros may be left out, and added. */
  method FreeZeros(a: Automaton, initials: seq<State>, ghost x: Word, ghost y: Word)
    requires a.Valid() && NeverBack(a.Snapshot(), a.initial) && |x| == |y| > 0 && Digits(x) && Digits(y)
        && IsBetween(a.Snapshot(), a.initial, x, y)
    requires Skips(a.Snapshot(), a.initial, initials) && |initials| == ZeroCount(x, 0, true)
    modifies a
    ensures a.Valid() && !a.deterministic
    ensures forall w :: a.Snapshot().Language(w) <==> InInterval(w, Value(x), Value(y), 0)
  {
    ghost var g := a.Snapshot();
    var s := a.initial;
    var pairs := set p | p in initials && p != s :: (s, p);
    assert Within(pairs, a.trans.Keys) by {
      forall q, p | (q, p) in pairs ensures q in a.trans.Keys && p in a.trans.Keys {
        var k :| 0 <= k < |initials| && initials[k] == p;
      }
    }
    AddEpsilons(a, pairs);
    ghost var h := a.Snapshot();
    assert NeverBack(h, s);
    a.trans := a.trans[s := a.trans[s] + {Transition(ZERO, ZERO, s)}];
    assert a.Snapshot() == LoopOn(h, s);
    forall w ensures a.Snapshot().Language(w) <==> InInterval(w, Value(x), Value(y), 0) {
      FreeLanguage(g, h, s, pairs, initials, x, y, w);
    }
  }

  lemma FreeLanguage(g: Graph, h: Graph, s: State, pairs: set<StatePair>, initials: seq<State>, x: Word, y: Word,
      w: Word)
    requires NeverBack(g, s) && s in h.trans && NeverBack(h, s) && |x| == |y| > 0 && Digits(x) && Digits(y)
        && IsBetween(g, s, x, y)
    requires Skips(g, s, initials) && |initials| == ZeroCount(x, 0, true) && pairs == set p | p in initials && p != s ::
        (s, p)
    requires forall v :: h.Accepts(s, v) <==> EpsilonAccepts(g, pairs, s, v)
    ensures LoopOn(h, s).Accepts(s, w) <==> InInterval(w, Value(x), Value(y), 0)
  {
    LoopAccepts(h, s, w);
    if j: nat :| AfterZeros(h, s, w, j) {
      var k := SkippedZeros(g, s, pairs, initials, x, w[j..]);
      assert Fits(x, y, w, j, k);
      FitsInside(x, y, w, j, k);
    }
    if InInterval(w, Value(x), Value(y), 0) {
      var j, k := InsideFits(x, y, w);
      SomeInitial(g, s, pairs, initials, w[j..], k);
      assert AfterZeros(h, s, w, j);
    }
  }

  lemma SkippedZeros(g: Graph, s: State, pairs: set<StatePair>, initials: seq<State>, x: Word, v: Word) returns (k: nat)
    requires NeverBack(g, s) && Skips(g, s, initials) && |initials| == ZeroCount(x, 0, true) && x != []
    requires pairs == (set p | p in initials && p != s :: (s, p)) && EpsilonAccepts(g, pairs, s, v)
    ensures k < |initials| && g.Accepts(s, Zeros(k) + v)
  {
    StartAccepts(g, pairs, s, v);
    if g.Accepts(s, v) {
      k := 0;
      assert Zeros(0) + v == v;
      ZeroCountCounts(x, 0, 0);
    } else {
      var p :| (s, p) in pairs && g.Accepts(p, v);
      k :| 0 <= k < |initials| && initials[k] == p;
      assert SkipsAt(g, s, initials[k], k);
    }
  }

  lemma SomeInitial(g: Graph, s: State, pairs: set<StatePair>, initials: seq<State>, v: Word, k: nat)
    requires NeverBack(g, s) && Skips(g, s, initials) && pairs == (set p | p in initials && p != s :: (s, p))
    requires k < |initials| && g.Accepts(s, Zeros(k) + v)
    ensures EpsilonAccepts(g, pairs, s, v)
  {
    StartAccepts(g, pairs, s, v);
    assert SkipsAt(g, s, initials[k], k);
    assert initials[k] in initials;
    assert initials[k] != s ==> (s, initials[k]) in pairs;
  }

  /** Numerals of the numbers from min to max. */
  method MakeInterval(min: nat, max: nat, digits: int) returns (r: Outcome)
    ensures r.IllegalArgument? <==> min > max || (digits > 0 && !HasNumeral(max, digits))
    ensures r.Made? ==> fresh(r.a) && r.a.Valid() && (r.a.deterministic ==> r.a.Snapshot().Reduced())
    ensures r.Made? ==> forall w :: r.a.Snapshot().Language(w) <==> Spells(w, min, max, digits)
  {
    if digits > 0 {
      FitsIffHasNumeral(max, digits);
    }
    var x, y := Decimal(min), Decimal(max);
    if min > max || (digits > 0 && |y| > digits) {
      return IllegalArgument;
    }
    var d := if digits > 0 then digits else |y|;
    DecimalGrows(min, max);
    DecimalValue(min);
    DecimalValue(max);
    x := Pad(x, d);
    y := Pad(y, d);
    LeIffValue(x, y);
    var a, initials := Tree(x, y, digits <= 0);
    if digits <= 0 {
      FreeZeros(a, initials, x, y);
    } else {
      FixedLanguage(a.Snapshot(), x, y);
    }
    InIntervalSpells(min, max, digits);
    r := Made(a);
  }

  lemma InIntervalSpells(min: nat, max: nat, digits: int)
    ensures forall w {:trigger Spells(w, min, max, digits)} {:trigger InInterval(w, min, max, digits)} ::
        InInterval(w, min, max, digits) <==> Spells(w, min, max, digits)
  {
    forall w ensures InInterval(w, min, max, digits) <==> Spells(w, min, max, digits) {
      ValueIsNumber(w);
    }
  }

  lemma FixedLanguage(g: Graph, x: Word, y: Word)
    requires |x| == |y| > 0 && Digits(x) && Digits(y) && IsBetween(g, g.initial, x, y)
    ensures forall w :: g.Language(w) <==> InInterval(w, Value(x), Value(y), |x|)
  {
    forall w | |w| == |x| && Digits(w) ensures Le(x, w) && Le(w, y) <==> Value(x) <= Value(w) <= Value(y) {
      LeIffValue(x, w);
      LeIffValue(w, y);
    }
  }
}
