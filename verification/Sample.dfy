/** The sample: four lists of counterexamples, each kept without duplicates. */
module Samples {
  import opened Languages
  import opened Automata
  import opened Encoding
  import Inclusion
  import Minimization

  /** An automaton object for a graph. */
  method Wrap(g: Graph) returns (a: Automaton)
    requires g.Valid()
    ensures fresh(a) && a.Valid() && a.Snapshot() == g && !a.deterministic
  {
    var todo, n := g.trans.Keys, 0;
    while todo != {}
      invariant todo <= g.trans.Keys && n >= 0 && forall q :: q in g.trans.Keys && q !in todo ==> q < n
    {
      var q :| q in todo;
      todo := todo - {q};
      if q >= n {
        n := q + 1;
      }
    }
    a := new Automaton.FromGraph(g, n, false);
  }

  /** CounterExample.equals: the same antecedent, and consequences with the same language. */
  method SameExample(c: CounterExample, d: CounterExample) returns (r: bool)
    requires c.a.Valid() && d.a.Valid()
    ensures r <==> c.u == d.u && SameLanguage(c.a, d.a)
  {
    if c.u != d.u {
      return false;
    }
    var a := Wrap(c.a);
    var b := Wrap(d.a);
    Minimization.MinimizeHopcroft(a);
    Minimization.MinimizeHopcroft(b);
    var there := Inclusion.SubsetOf(a, b);
    var back := Inclusion.SubsetOf(b, a);
    r := there && back;
  }

  /** ArrayList.contains on counterexamples. */
  method ContainsExample(cs: seq<CounterExample>, d: CounterExample) returns (r: bool)
    requires d.a.Valid() && forall c :: c in cs ==> c.a.Valid()
    ensures r <==> exists c :: c in cs && c.u == d.u && SameLanguage(c.a, d.a)
  {
    for i := 0 to |cs|
      invariant forall j :: 0 <= j < i ==> !(cs[j].u == d.u && SameLanguage(cs[j].a, d.a))
    {
      assert cs[i] in cs;
      r := SameExample(cs[i], d);
      if r {
        return;
      }
    }
    r := false;
  }

  class Sample {
    var pos: seq<Word>
    var neg: seq<Word>
    var ex: seq<CounterExample>
    var uni: seq<CounterExample>
    var size: nat

    constructor ()
      ensures Valid() && Data() == SampleData([], [], [], []) && size == 0
    {
      pos, neg, ex, uni, size := [], [], [], [], 0;
    }

    function Data(): SampleData
      reads this
    {
      SampleData(pos, neg, uni, ex)
    }

    /** The automata are sound and the size counts the counterexamples. */
    ghost predicate Valid()
      reads this
    {
      && (forall c :: c in ex ==> c.a.Valid()) && (forall c :: c in uni ==> c.a.Valid())
      && size == |pos| + |neg| + |ex| + |uni|
    }

    method AddPos(w: Word)
      requires Valid()
      modifies this
      ensures Valid() && neg == old(neg) && ex == old(ex) && uni == old(uni)
      ensures if w in old(pos) then pos == old(pos) && size == old(size)
          else pos == old(pos) + [w] && size == old(size) + 1
    {
      if w !in pos {
        size := size + 1;
        pos := pos + [w];
      }
    }

    method AddNeg(w: Word)
      requires Valid()
      modifies this
      ensures Valid() && pos == old(pos) && ex == old(ex) && uni == old(uni)
      ensures if w in old(neg) then neg == old(neg) && size == old(size)
          else neg == old(neg) + [w] && size == old(size) + 1
    {
      if w !in neg {
        size := size + 1;
        neg := neg + [w];
      }
    }

    method AddEx(u: Word, a: Graph)
      requires Valid() && a.Valid()
      modifies this
      ensures Valid() && pos == old(pos) && neg == old(neg) && uni == old(uni)
      ensures if exists c :: c in old(ex) && c.u == u && SameLanguage(c.a, a) then ex == old(ex) && size == old(size)
              else ex == old(ex) + [CounterExample(u, a)] && size == old(size) + 1
    {
      var present := ContainsExample(ex, CounterExample(u, a));
      if !present {
        size := size + 1;
        ex := ex + [CounterExample(u, a)];
      }
    }

    method AddUni(u: Word, a: Graph)
      requires Valid() && a.Valid()
      modifies this
      ensures Valid() && pos == old(pos) && neg == old(neg) && ex == old(ex)
      ensures if exists c :: c in old(uni) && c.u == u && SameLanguage(c.a, a) then uni == old(uni) && size == old(size)
              else uni == old(uni) + [CounterExample(u, a)] && size == old(size) + 1
    {
      var present := ContainsExample(uni, CounterExample(u, a));
      if !present {
        size := size + 1;
        uni := uni + [CounterExample(u, a)];
      }
    }
  }
}
