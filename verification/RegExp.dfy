/** Regular expressions and their compilation to automata. */
module RegExps {
  import opened Languages
  import opened Automata
  import opened BasicAutomata
  import opened Concatenations
  import opened Repetitions
  import opened NumericIntervals
  import Minimization
  import Products

  datatype RegExp =
    | Union(exp1: RegExp, exp2: RegExp)
    | Concatenation(exp1: RegExp, exp2: RegExp)
    | Intersection(exp1: RegExp, exp2: RegExp)
    | Optional(exp1: RegExp)
    | Repeat(exp1: RegExp)
    | RepeatMin(exp1: RegExp, min: nat)
    | RepeatMinMax(exp1: RegExp, min: nat, max: nat)
    | Complement(exp1: RegExp)
    | OneChar(c: Char)
    | CharRange(from: Char, to: Char)
    | AnyChar
    | Empty
    | Str(s: Word)
    | AnyString
    | Interval(min: nat, max: nat, digits: int)

  /** The language of an expression. */
  ghost predicate Denotes(e: RegExp, w: Word)
    decreases e, 1, 0
  {
    match e
    case Union(e1, e2) => Denotes(e1, w) || Denotes(e2, w)
    case Concatenation(_, _) => exists i: nat :: SplitsAt(e, w, i)
    case Intersection(e1, e2) => Denotes(e1, w) && Denotes(e2, w)
    case Optional(e1) => w == [] || Denotes(e1, w)
    case Repeat(e1) => exists n: nat :: Times(Meaning(e1), n, w)
    case RepeatMin(e1, min) => exists n: nat :: min <= n && Times(Meaning(e1), n, w)
    case RepeatMinMax(e1, min, max) => exists n: nat :: min <= n <= max && Times(Meaning(e1), n, w)
    case Complement(e1) => !Denotes(e1, w)
    case OneChar(c) => w == [c]
    case CharRange(from, to) => |w| == 1 && from <= w[0] <= to
    case AnyChar => |w| == 1
    case Empty => false
    case Str(s) => w == s
    case AnyString => true
    case Interval(min, max, digits) => Spells(w, min, max, digits)
  }

  /** The first i characters belong to the first operand, the others to the second. */
  ghost predicate SplitsAt(e: RegExp, w: Word, i: nat)
    requires e.Concatenation?
    decreases e, 0, 0
  {
    i <= |w| && Denotes(e.exp1, w[..i]) && Denotes(e.exp2, w[i..])
  }

  ghost function Meaning(e: RegExp): Word -> bool
    decreases e, 2, 0
  {
    (w: Word) => Denotes(e, w)
  }

  /** n words in a row. */
  ghost predicate Times(inside: Word -> bool, n: nat, w: Word)
    decreases n
  {
    if n == 0 then w == [] else exists i: nat :: i <= |w| && inside(w[..i]) && Times(inside, n - 1, w[i..])
  }

  /** No interval is empty or has too few digits. */
  ghost predicate WellFormed(e: RegExp) {
    match e
    case Union(e1, e2) => WellFormed(e1) && WellFormed(e2)
    case Concatenation(e1, e2) => WellFormed(e1) && WellFormed(e2)
    case Intersection(e1, e2) => WellFormed(e1) && WellFormed(e2)
    case Optional(e1) => WellFormed(e1)
    case Repeat(e1) => WellFormed(e1)
    case RepeatMin(e1, _) => WellFormed(e1)
    case RepeatMinMax(e1, _, _) => WellFormed(e1)
    case Complement(e1) => WellFormed(e1)
    case Interval(min, max, digits) => min <= max && (digits > 0 ==> HasNumeral(max, digits))
    case _ => true
  }

  // ----- makeConcatenation -----

  predicate IsText(e: RegExp) {
    e.OneChar? || e.Str?
  }

  function Text(e: RegExp): Word
    requires IsText(e)
  {
    if e.Str? then e.s else [e.c]
  }

  /** Adjacent characters and strings are fused into one string. */
  function MakeConcatenation(e1: RegExp, e2: RegExp): RegExp {
    if IsText(e1) && IsText(e2) then Str(Text(e1) + Text(e2))
    else if e1.Concatenation? && IsText(e1.exp2) && IsText(e2)
      then Concatenation(e1.exp1, Str(Text(e1.exp2) + Text(e2)))
    else if IsText(e1) && e2.Concatenation? && IsText(e2.exp1)
      then Concatenation(Str(Text(e1) + Text(e2.exp1)), e2.exp2)
    else Concatenation(e1, e2)
  }

  lemma TextDenotes(e: RegExp, w: Word)
    requires IsText(e)
    ensures Denotes(e, w) <==> w == Text(e)
  {
  }

  ghost predicate Splits(e1: RegExp, e2: RegExp, w: Word, i: nat) {
    SplitsAt(Concatenation(e1, e2), w, i)
  }

  lemma ConcatenationSplits(e1: RegExp, e2: RegExp, w: Word)
    ensures Denotes(Concatenation(e1, e2), w) <==> exists i: nat :: Splits(e1, e2, w, i)
  {
    if i: nat :| SplitsAt(Concatenation(e1, e2), w, i) {
      assert Splits(e1, e2, w, i);
    }
  }

  /** Two strings in a row are their concatenation. */
  lemma FuseTwo(e1: RegExp, e2: RegExp, w: Word)
    requires IsText(e1) && IsText(e2)
    ensures Denotes(Concatenation(e1, e2), w) <==> w == Text(e1) + Text(e2)
  {
    ConcatenationSplits(e1, e2, w);
    if i: nat :| Splits(e1, e2, w, i) {
      TextDenotes(e1, w[..i]);
      TextDenotes(e2, w[i..]);
      assert w == w[..i] + w[i..];
    }
    if w == Text(e1) + Text(e2) {
      var i := |Text(e1)|;
      assert w[..i] == Text(e1) && w[i..] == Text(e2);
      TextDenotes(e1, w[..i]);
      TextDenotes(e2, w[i..]);
      assert Splits(e1, e2, w, i);
    }
  }

  lemma ConcatenationIsAssociative(e1: RegExp, e2: RegExp, e3: RegExp, w: Word)
    ensures Denotes(Concatenation(Concatenation(e1, e2), e3), w) <==>
        Denotes(Concatenation(e1, Concatenation(e2, e3)), w)
  {
    ConcatenationSplits(Concatenation(e1, e2), e3, w);
    ConcatenationSplits(e1, Concatenation(e2, e3), w);
    if i: nat :| Splits(Concatenation(e1, e2), e3, w, i) {
      ConcatenationSplits(e1, e2, w[..i]);
      var j: nat :| Splits(e1, e2, w[..i], j);
      assert w[..i][..j] == w[..j] && w[..i][j..] == w[j..][..i - j] && w[i..] == w[j..][i - j..];
      assert Splits(e2, e3, w[j..], i - j);
      ConcatenationSplits(e2, e3, w[j..]);
      assert Splits(e1, Concatenation(e2, e3), w, j);
    }
    if j: nat :| Splits(e1, Concatenation(e2, e3), w, j) {
      ConcatenationSplits(e2, e3, w[j..]);
      var k: nat :| Splits(e2, e3, w[j..], k);
      var i := j + k;
      assert w[..i][..j] == w[..j] && w[..i][j..] == w[j..][..k] && w[i..] == w[j..][k..];
      assert Splits(e1, e2, w[..i], j);
      ConcatenationSplits(e1, e2, w[..i]);
      assert Splits(Concatenation(e1, e2), e3, w, i);
    }
  }

  lemma SameParts(e1: RegExp, e2: RegExp, d1: RegExp, d2: RegExp, w: Word)
    requires forall v :: (Denotes(e1, v) <==> Denotes(d1, v)) && (Denotes(e2, v) <==> Denotes(d2, v))
    ensures Denotes(Concatenation(e1, e2), w) <==> Denotes(Concatenation(d1, d2), w)
  {
    ConcatenationSplits(e1, e2, w);
    ConcatenationSplits(d1, d2, w);
    if i: nat :| Splits(e1, e2, w, i) {
      assert Splits(d1, d2, w, i);
    }
    if i: nat :| Splits(d1, d2, w, i) {
      assert Splits(e1, e2, w, i);
    }
  }

  lemma FusedText(e1: RegExp, e2: RegExp)
    requires IsText(e1) && IsText(e2)
    ensures forall v :: Denotes(Str(Text(e1) + Text(e2)), v) <==> Denotes(Concatenation(e1, e2), v)
  {
    forall v ensures Denotes(Str(Text(e1) + Text(e2)), v) <==> Denotes(Concatenation(e1, e2), v) {
      FuseTwo(e1, e2, v);
    }
  }

  lemma FuseRight(f: RegExp, t1: RegExp, t2: RegExp, w: Word)
    requires IsText(t1) && IsText(t2)
    ensures Denotes(Concatenation(f, Str(Text(t1) + Text(t2))), w) <==>
        Denotes(Concatenation(Concatenation(f, t1), t2), w)
  {
    FusedText(t1, t2);
    SameParts(f, Str(Text(t1) + Text(t2)), f, Concatenation(t1, t2), w);
    ConcatenationIsAssociative(f, t1, t2, w);
  }

  lemma FuseLeft(t1: RegExp, t2: RegExp, f: RegExp, w: Word)
    requires IsText(t1) && IsText(t2)
    ensures Denotes(Concatenation(Str(Text(t1) + Text(t2)), f), w) <==>
        Denotes(Concatenation(t1, Concatenation(t2, f)), w)
  {
    FusedText(t1, t2);
    SameParts(Str(Text(t1) + Text(t2)), f, Concatenation(t1, t2), f, w);
    ConcatenationIsAssociative(t1, t2, f, w);
  }

  /** Fusing strings keeps the meaning. */
  lemma MakeConcatenationDenotes(e1: RegExp, e2: RegExp, w: Word)
    ensures Denotes(MakeConcatenation(e1, e2), w) <==> Denotes(Concatenation(e1, e2), w)
  {
    if IsText(e1) && IsText(e2) {
      FuseTwo(e1, e2, w);
    } else if e1.Concatenation? && IsText(e1.exp2) && IsText(e2) {
      FuseRight(e1.exp1, e1.exp2, e2, w);
    } else if IsText(e1) && e2.Concatenation? && IsText(e2.exp1) {
      FuseLeft(e1, e2.exp1, e2.exp2, w);
    }
  }

  lemma MakeConcatenationWellFormed(e1: RegExp, e2: RegExp)
    ensures WellFormed(MakeConcatenation(e1, e2)) <==> WellFormed(e1) && WellFormed(e2)
  {
    if e1.Concatenation? && IsText(e1.exp2) {
      assert WellFormed(e1.exp2);
    }
    if e2.Concatenation? && IsText(e2.exp1) {
      assert WellFormed(e2.exp1);
    }
  }

  /** The operands of a concatenation that is nested to the right, as the parser nests it. */
  ghost function Chain(e: RegExp): (es: seq<RegExp>)
    ensures es != [] && (!e.Concatenation? ==> es == [e])
  {
    if e.Concatenation? then [e.exp1] + Chain(e.exp2) else [e]
  }

  /** No text is followed by another. */
  ghost predicate Fused(es: seq<RegExp>) {
    forall i {:trigger es[i]} :: 0 <= i < |es| - 1 ==> !(IsText(es[i]) && IsText(es[i + 1]))
  }

  /** What is not a text. */
  ghost function Others(es: seq<RegExp>): seq<RegExp> {
    if es == [] then [] else (if IsText(es[0]) then [] else [es[0]]) + Others(es[1..])
  }

  /** A text put in front is fused with a text at the beginning; any other operand is put in front as it is. */
  lemma PutInFront(e1: RegExp, e2: RegExp)
    requires !e1.Concatenation?
    ensures Chain(MakeConcatenation(e1, e2)) ==
      if IsText(e1) && IsText(Chain(e2)[0]) then [Str(Text(e1) + Text(Chain(e2)[0]))] + Chain(e2)[1..]
      else [e1] + Chain(e2)
  {
  }

  /** A text put behind a concatenation is fused with a text at its end. */
  lemma PutBehind(e: RegExp, t1: RegExp, t2: RegExp)
    requires IsText(t1) && IsText(t2)
    ensures Chain(MakeConcatenation(Concatenation(e, t1), t2)) == [e, Str(Text(t1) + Text(t2))]
  {
    assert Chain(Concatenation(e, Str(Text(t1) + Text(t2)))) == [e] + [Str(Text(t1) + Text(t2))];
  }

  ghost function InARow(es: seq<RegExp>): RegExp
    requires es != []
  {
    if |es| == 1 then es[0] else MakeConcatenation(es[0], InARow(es[1..]))
  }

  /** Operands put together from right to left: no two texts in a row are left, and all other operands are there in
      their order. */
  lemma {:induction false} InARowIsFused(es: seq<RegExp>)
    requires es != [] && forall i {:trigger es[i]} :: 0 <= i < |es| ==> !es[i].Concatenation?
    ensures Fused(Chain(InARow(es))) && Others(Chain(InARow(es))) == Others(es)
    decreases |es|
  {
    if |es| > 1 {
      InARowIsFused(es[1..]);
      var c := Chain(InARow(es[1..]));
      PutInFront(es[0], InARow(es[1..]));
      var d := Chain(InARow(es));
      if IsText(es[0]) && IsText(c[0]) {
        assert d[1..] == c[1..];
        forall i | 0 <= i < |d| - 1 ensures !(IsText(d[i]) && IsText(d[i + 1])) {
          assert i > 0 ==> d[i] == c[i];
          assert d[i + 1] == c[i + 1] && IsText(c[0]);
          assert !(IsText(c[i]) && IsText(c[i + 1]));
        }
      } else {
        assert d[1..] == c;
        forall i | 0 <= i < |d| - 1 ensures !(IsText(d[i]) && IsText(d[i + 1])) {
          assert i > 0 ==> d[i] == c[i - 1] && d[i + 1] == c[i - 1 + 1];
        }
      }
    } else {
      assert es == [es[0]];
    }
  }

  // ----- toAutomaton -----

  ghost predicate Means(g: Graph, e: RegExp) {
    forall w :: g.Language(w) <==> Denotes(e, w)
  }

  lemma {:induction false} PowerIsTimes(g: Graph, inside: Word -> bool, n: nat, w: Word)
    requires (forall v {:trigger g.Language(v)} {:trigger inside(v)} :: g.Language(v) <==> inside(v)) && Power(g, n, w)
    ensures Times(inside, n, w)
    decreases n
  {
    if n > 0 {
      var i: nat :| i <= |w| && g.Language(w[..i]) && Power(g, n - 1, w[i..]);
      PowerIsTimes(g, inside, n - 1, w[i..]);
    }
  }

  lemma {:induction false} TimesIsPower(g: Graph, inside: Word -> bool, n: nat, w: Word)
    requires (forall v {:trigger g.Language(v)} {:trigger inside(v)} :: g.Language(v) <==> inside(v))
        && Times(inside, n, w)
    ensures Power(g, n, w)
    decreases n
  {
    if n > 0 {
      var i: nat :| i <= |w| && inside(w[..i]) && Times(inside, n - 1, w[i..]);
      TimesIsPower(g, inside, n - 1, w[i..]);
    }
  }

  lemma PowersAreTimes(g: Graph, e: RegExp, n: nat, w: Word)
    requires Means(g, e)
    ensures Power(g, n, w) <==> Times(Meaning(e), n, w)
  {
    var inside := Meaning(e);
    assert forall v {:trigger inside(v)} :: inside(v) <==> Denotes(e, v);
    if Power(g, n, w) {
      PowerIsTimes(g, inside, n, w);
    }
    if Times(inside, n, w) {
      TimesIsPower(g, inside, n, w);
    }
  }

  /** Only what is not a leaf is minimized. */
  ghost predicate IsCompound(e: RegExp) {
    e.Union? || e.Concatenation? || e.Intersection? || e.Optional? || e.Repeat? || e.RepeatMin? || e.RepeatMinMax?
      || e.Complement?
  }

  /** The result of compiling e: the exception exactly when some interval is malformed, otherwise an automaton for its
      language. */
  ghost predicate Compiled(e: RegExp, minimize: bool, r: Outcome)
    reads if r.Made? then {r.a} else {}
  {
    && (r.IllegalArgument? <==> !WellFormed(e))
    && (r.Made? ==> r.a.Valid() && Means(r.a.Snapshot(), e) && (r.a.deterministic ==>
         Minimization.Minimizable(r.a.Snapshot())))
    && (r.Made? && minimize && IsCompound(e) ==> r.a.deterministic && r.a.Snapshot().Minimal())
  }

  /** Minimizes the result, if that is wanted. */
  method Finish(a: Automaton, minimize: bool, ghost e: RegExp) returns (r: Outcome)
    requires a.Valid() && Means(a.Snapshot(), e) && WellFormed(e) && (a.deterministic ==>
        Minimization.Minimizable(a.Snapshot()))
    modifies a
    ensures r == Made(a) && Compiled(e, minimize, r)
  {
    ghost var g := a.Snapshot();
    if minimize {
      Minimization.MinimizeHopcroft(a);
      assert SameLanguage(g, a.Snapshot());
    }
    r := Made(a);
  }

  /** Compiles the expression; with minimize every automaton but those of the leaves is minimal. */
  method ToAutomaton(e: RegExp, minimize: bool) returns (r: Outcome)
    ensures Compiled(e, minimize, r) && (r.Made? ==> fresh(r.a))
    decreases e, 3
  {
    match e {
      case Union(e1, e2) => r := CompileUnion(e, minimize);
      case Concatenation(e1, e2) => r := CompileConcatenation(e, minimize);
      case Intersection(e1, e2) => r := CompileIntersection(e, minimize);
      case Optional(e1) => r := CompileOne(e, minimize);
      case Repeat(e1) => r := CompileOne(e, minimize);
      case RepeatMin(e1, min) => r := CompileOne(e, minimize);
      case RepeatMinMax(e1, min, max) => r := CompileOne(e, minimize);
      case Complement(e1) => r := CompileOne(e, minimize);
      case _ => r := CompileLeaf(e, minimize);
    }
  }

  method CompileLeaf(e: RegExp, minimize: bool) returns (r: Outcome)
    requires !IsCompound(e)
    ensures Compiled(e, minimize, r) && (r.Made? ==> fresh(r.a))
  {
    if e.Interval? {
      r := MakeInterval(e.min, e.max, e.digits);
      return;
    }
    var a := MakeLeaf(e);
    r := Made(a);
  }

  method MakeLeaf(e: RegExp) returns (a: Automaton)
    requires !IsCompound(e) && !e.Interval?
    ensures fresh(a) && a.Valid() && Means(a.Snapshot(), e) && a.Snapshot().Reduced()
  {
    match e {
      case OneChar(c) => a := MakeString([c]);
      case CharRange(from, to) => a := MakeCharRange(from, to);
      case AnyChar => a := MakeCharRange(MIN_CHAR, MAX_CHAR);
      case Empty => a := Products.MakeEmpty();
      case Str(s) => a := MakeString(s);
      case AnyString => a := MakeAnyString();
    }
  }

  /** The operators with one operand. */
  method CompileOne(e: RegExp, minimize: bool) returns (r: Outcome)
    requires e.Optional? || e.Repeat? || e.RepeatMin? || e.RepeatMinMax? || e.Complement?
    ensures Compiled(e, minimize, r) && (r.Made? ==> fresh(r.a))
    decreases e, 2
  {
    r := ToAutomaton(e.exp1, minimize);
    if r.Made? {
      var a := Apply(e, r.a);
      r := Finish(a, minimize, e);
    }
  }

  method Apply(e: RegExp, a1: Automaton) returns (a: Automaton)
    requires e.Optional? || e.Repeat? || e.RepeatMin? || e.RepeatMinMax? || e.Complement?
    requires a1.Valid() && Means(a1.Snapshot(), e.exp1) && (a1.deterministic ==>
        Minimization.Minimizable(a1.Snapshot()))
    ensures fresh(a) && a.Valid() && Means(a.Snapshot(), e) && (a.deterministic ==>
        Minimization.Minimizable(a.Snapshot()))
  {
    ghost var g := a1.Snapshot();
    match e {
      case Optional(_) => a := Repetitions.Optional(a1);
      case Repeat(_) =>
        a := Repetitions.Repeat(a1);
        RepeatMeans(g, a.Snapshot(), e);
      case RepeatMin(_, min) =>
        a := Repetitions.RepeatMin(a1, min);
        RepeatMinMeans(g, a.Snapshot(), e);
      case RepeatMinMax(_, min, max) =>
        a := Repetitions.RepeatMinMax(a1, min, max);
        RepeatMinMaxMeans(g, a.Snapshot(), e);
      case Complement(_) => a := Products.Complement(a1);
    }
  }

  lemma RepeatMeans(g: Graph, h: Graph, e: RegExp)
    requires e.Repeat? && Means(g, e.exp1) && forall w :: h.Language(w) <==> Star(g, w)
    ensures Means(h, e)
  {
    forall w ensures h.Language(w) <==> Denotes(e, w) {
      forall n: nat ensures Power(g, n, w) <==> Times(Meaning(e.exp1), n, w) {
        PowersAreTimes(g, e.exp1, n, w);
      }
    }
  }

  lemma RepeatMinMeans(g: Graph, h: Graph, e: RegExp)
    requires e.RepeatMin? && Means(g, e.exp1) && forall w :: h.Language(w) <==> AtLeast(g, e.min, w)
    ensures Means(h, e)
  {
    forall w ensures h.Language(w) <==> Denotes(e, w) {
      forall n: nat ensures Power(g, n, w) <==> Times(Meaning(e.exp1), n, w) {
        PowersAreTimes(g, e.exp1, n, w);
      }
    }
  }

  lemma RepeatMinMaxMeans(g: Graph, h: Graph, e: RegExp)
    requires e.RepeatMinMax? && Means(g, e.exp1) && forall w :: h.Language(w) <==> Between(g, e.min, e.max, w)
    ensures Means(h, e)
  {
    forall w ensures h.Language(w) <==> Denotes(e, w) {
      forall n: nat ensures Power(g, n, w) <==> Times(Meaning(e.exp1), n, w) {
        PowersAreTimes(g, e.exp1, n, w);
      }
    }
  }

  method CompileIntersection(e: RegExp, minimize: bool) returns (r: Outcome)
    requires e.Intersection?
    ensures Compiled(e, minimize, r) && (r.Made? ==> fresh(r.a))
    decreases e, 2
  {
    r := ToAutomaton(e.exp1, minimize);
    if r.IllegalArgument? {
      return;
    }
    var a1 := r.a;
    r := ToAutomaton(e.exp2, minimize);
    if r.IllegalArgument? {
      return;
    }
    var a := Products.Intersection(a1, r.a);
    r := Finish(a, minimize, e);
  }

  // ----- findLeaves -----

  /** The automata of a list, in whose languages w lies, or whose languages w is made of. */
  ghost predicate ListDenotes(gs: seq<Graph>, isUnion: bool, w: Word) {
    if isUnion then InSome(gs, w) else Sequence(gs, w)
  }

  ghost predicate ListMeans(gs: seq<Graph>, isUnion: bool, e: RegExp) {
    forall w :: ListDenotes(gs, isUnion, w) <==> Denotes(e, w)
  }

  lemma LastPart(gs: seq<Graph>, g: Graph, w: Word) returns (k: nat)
    requires Sequence(gs + [g], w)
    ensures k <= |w| && Sequence(gs, w[..k]) && g.Language(w[k..])
  {
    SequenceStep(gs, g, w);
    k :| k <= |w| && Sequence(gs, w[..k]) && g.Language(w[k..]);
  }

  lemma JoinLast(gs: seq<Graph>, g: Graph, w: Word, k: nat)
    requires k <= |w| && Sequence(gs, w[..k]) && g.Language(w[k..])
    ensures Sequence(gs + [g], w)
  {
    SequenceStep(gs, g, w);
  }

  lemma Slices(w: Word, i: nat, k: nat)
    requires i <= k <= |w|
    ensures w[..k][..i] == w[..i] && w[..k][i..] == w[i..][..k - i] && w[k..] == w[i..][k - i..]
  {
  }

  lemma LastOfSum(gs: seq<Graph>, hs: seq<Graph>) returns (rest: seq<Graph>, last: Graph)
    requires hs != []
    ensures hs == rest + [last] && gs + hs == (gs + rest) + [last] && |rest| < |hs|
  {
    rest, last := hs[..|hs| - 1], hs[|hs| - 1];
  }

  lemma {:induction false} SequenceParts(gs: seq<Graph>, hs: seq<Graph>, w: Word) returns (i: nat)
    requires Sequence(gs + hs, w)
    ensures i <= |w| && Sequence(gs, w[..i]) && Sequence(hs, w[i..])
    decreases |hs|
  {
    if hs == [] {
      assert gs + hs == gs;
      i := |w|;
      assert w[..i] == w;
    } else {
      var rest, last := LastOfSum(gs, hs);
      var k := LastPart(gs + rest, last, w);
      i := SequenceParts(gs, rest, w[..k]);
      Slices(w, i, k);
      JoinLast(rest, last, w[i..], k - i);
    }
  }

  lemma {:induction false} SequenceJoins(gs: seq<Graph>, hs: seq<Graph>, w: Word, i: nat)
    requires i <= |w| && Sequence(gs, w[..i]) && Sequence(hs, w[i..])
    ensures Sequence(gs + hs, w)
    decreases |hs|
  {
    if hs == [] {
      assert gs + hs == gs && w[..i] == w;
    } else {
      var rest, last := LastOfSum(gs, hs);
      var k := LastPart(rest, last, w[i..]);
      Slices(w, i, i + k);
      SequenceJoins(gs, rest, w[..i + k], i);
      JoinLast(gs + rest, last, w, i + k);
    }
  }

  /** The leaves of both operands. */
  lemma BothMean(gs: seq<Graph>, hs: seq<Graph>, isUnion: bool, e: RegExp)
    requires (isUnion && e.Union?) || (!isUnion && e.Concatenation?)
    requires ListMeans(gs, isUnion, e.exp1) && ListMeans(hs, isUnion, e.exp2)
    ensures ListMeans(gs + hs, isUnion, e)
  {
    forall w ensures ListDenotes(gs + hs, isUnion, w) <==> Denotes(e, w) {
      if isUnion {
        InBoth(gs, hs, w);
        assert ListDenotes(gs, isUnion, w) <==> Denotes(e.exp1, w);
        assert ListDenotes(hs, isUnion, w) <==> Denotes(e.exp2, w);
      } else {
        SequencesMean(gs, hs, e, w);
      }
    }
  }

  lemma InBoth(gs: seq<Graph>, hs: seq<Graph>, w: Word)
    ensures InSome(gs + hs, w) <==> InSome(gs, w) || InSome(hs, w)
  {
    if i :| 0 <= i < |gs| && gs[i].Language(w) {
      assert (gs + hs)[i] == gs[i];
    }
    if i :| 0 <= i < |hs| && hs[i].Language(w) {
      assert (gs + hs)[|gs| + i] == hs[i];
    }
  }

  lemma SequencesMean(gs: seq<Graph>, hs: seq<Graph>, e: RegExp, w: Word)
    requires e.Concatenation? && ListMeans(gs, false, e.exp1) && ListMeans(hs, false, e.exp2)
    ensures Sequence(gs + hs, w) <==> Denotes(e, w)
  {
    if Sequence(gs + hs, w) {
      var i := SequenceParts(gs, hs, w);
      assert ListDenotes(gs, false, w[..i]) && ListDenotes(hs, false, w[i..]);
      assert SplitsAt(e, w, i);
    }
    if Denotes(e, w) {
      ConcatenationSplits(e.exp1, e.exp2, w);
      var i: nat :| Splits(e.exp1, e.exp2, w, i);
      assert ListDenotes(gs, false, w[..i]) && ListDenotes(hs, false, w[i..]);
      SequenceJoins(gs, hs, w, i);
    }
  }

  lemma OneMeans(g: Graph, isUnion: bool, e: RegExp)
    requires Means(g, e)
    ensures ListMeans([g], isUnion, e)
  {
    OneStandsFor(g);
    forall w ensures ListDenotes([g], isUnion, w) <==> Denotes(e, w) {
      InSomeStep([], g, w);
      assert [] + [g] == [g];
    }
  }

  datatype Leaves = Leaves(list: seq<Automaton>) | Malformed

  ghost predicate Found(e: RegExp, isUnion: bool, l: Leaves)
    reads if l.Leaves? then l.list else []
  {
    && (l.Malformed? <==> !WellFormed(e))
    && (l.Leaves? ==> AllValid(l.list) && ListMeans(Snapshots(l.list), isUnion, e))
  }

  lemma ListsTogether(list1: seq<Automaton>, list2: seq<Automaton>)
    ensures Snapshots(list1 + list2) == Snapshots(list1) + Snapshots(list2)
  {
    forall i | 0 <= i < |list1 + list2|
        ensures Snapshots(list1 + list2)[i] == (Snapshots(list1) + Snapshots(list2))[i]
    {
    }
  }

  /** The automata of the operands of nested unions, or of nested concatenations. */
  method FindLeaves(e: RegExp, isUnion: bool, minimize: bool) returns (l: Leaves)
    ensures Found(e, isUnion, l)
    decreases e, 4
  {
    if (isUnion && e.Union?) || (!isUnion && e.Concatenation?) {
      l := FindBoth(e, isUnion, minimize);
    } else {
      var r := ToAutomaton(e, minimize);
      if r.IllegalArgument? {
        return Malformed;
      }
      OneMeans(r.a.Snapshot(), isUnion, e);
      l := Leaves([r.a]);
      assert Snapshots([r.a]) == [r.a.Snapshot()];
    }
  }

  method FindBoth(e: RegExp, isUnion: bool, minimize: bool) returns (l: Leaves)
    requires (isUnion && e.Union?) || (!isUnion && e.Concatenation?)
    ensures Found(e, isUnion, l)
    decreases e, 1
  {
    l := FindLeaves(e.exp1, isUnion, minimize);
    if l.Leaves? {
      l := FindMore(e, isUnion, minimize, l.list);
    }
  }

  /** The leaves of the second operand, behind those of the first. */
  method FindMore(e: RegExp, isUnion: bool, minimize: bool, list: seq<Automaton>) returns (l: Leaves)
    requires (isUnion && e.Union?) || (!isUnion && e.Concatenation?)
    requires WellFormed(e.exp1) && AllValid(list) && ListMeans(Snapshots(list), isUnion, e.exp1)
    ensures Found(e, isUnion, l)
    decreases e, 0
  {
    ghost var gs := Snapshots(list);
    l := FindLeaves(e.exp2, isUnion, minimize);
    if l.Leaves? {
      assert Snapshots(list) == gs;
      BothMean(gs, Snapshots(l.list), isUnion, e);
      ListsTogether(list, l.list);
      l := Leaves(list + l.list);
    }
  }

  method CompileUnion(e: RegExp, minimize: bool) returns (r: Outcome)
    requires e.Union?
    ensures Compiled(e, minimize, r) && (r.Made? ==> fresh(r.a))
    decreases e, 2
  {
    var l := FindBoth(e, true, minimize);
    if l.Malformed? {
      return IllegalArgument;
    }
    ghost var gs := Snapshots(l.list);
    var a := UnionAll(l.list);
    UnionMeans(gs, a.Snapshot(), e);
    r := Finish(a, minimize, e);
  }

  lemma UnionMeans(gs: seq<Graph>, g: Graph, e: RegExp)
    requires ListMeans(gs, true, e) && forall w :: g.Language(w) <==> InSome(gs, w)
    ensures Means(g, e)
  {
    forall w ensures g.Language(w) <==> Denotes(e, w) {
      assert ListDenotes(gs, true, w) <==> Denotes(e, w);
    }
  }

  method CompileConcatenation(e: RegExp, minimize: bool) returns (r: Outcome)
    requires e.Concatenation?
    ensures Compiled(e, minimize, r) && (r.Made? ==> fresh(r.a))
    decreases e, 2
  {
    var l := FindBoth(e, false, minimize);
    if l.Malformed? {
      return IllegalArgument;
    }
    ghost var gs := Snapshots(l.list);
    var a := ConcatenateAll(l.list);
    ConcatenationMeans(gs, a.Snapshot(), e);
    r := Finish(a, minimize, e);
  }

  lemma ConcatenationMeans(gs: seq<Graph>, g: Graph, e: RegExp)
    requires ListMeans(gs, false, e) && StandsFor(g, gs)
    ensures Means(g, e)
  {
    forall w ensures g.Language(w) <==> Denotes(e, w) {
      assert ListDenotes(gs, false, w) <==> Denotes(e, w);
    }
  }
}
