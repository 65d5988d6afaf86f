/** Boolean formulas over the learner's variables, and the list of constraints handed to the solver. */
module Formulas {
  import opened Constraints

  datatype Formula =
    | True
    | False
    | Lit(v: Var)
    | Not(f: Formula)
    | And(f: Formula, g: Formula)
    | Or(f: Formula, g: Formula)
    | Implies(f: Formula, g: Formula)
  {
    ghost predicate Eval(m: Assignment) {
      match this
      case True => true
      case False => false
      case Lit(v) => m(v)
      case Not(f) => !f.Eval(m)
      case And(f, g) => f.Eval(m) && g.Eval(m)
      case Or(f, g) => f.Eval(m) || g.Eval(m)
      case Implies(f, g) => f.Eval(m) ==> g.Eval(m)
    }
  }

  function Both(a: Var, b: Var): (f: Formula)
    ensures forall m {:trigger f.Eval(m)} :: f.Eval(m) <==> m(a) && m(b)
  {
    And(Lit(a), Lit(b))
  }

  function NotBoth(a: Var, b: Var): (f: Formula)
    ensures forall m {:trigger f.Eval(m)} :: f.Eval(m) <==> !(m(a) && m(b))
  {
    Not(Both(a, b))
  }

  function Leads(a: Var, b: Var, c: Var): (f: Formula)
    ensures forall m {:trigger f.Eval(m)} :: f.Eval(m) <==> (m(a) && m(b) ==> m(c))
  {
    Implies(Both(a, b), Lit(c))
  }

  function Deny(a: Var): (f: Formula)
    ensures forall m {:trigger f.Eval(m)} :: f.Eval(m) <==> !m(a)
  {
    Not(Lit(a))
  }

  function LeadsOne(a: Var, b: Var): (f: Formula)
    ensures forall m {:trigger f.Eval(m)} :: f.Eval(m) <==> (m(a) ==> m(b))
  {
    Implies(Lit(a), Lit(b))
  }

  function Refuses(a: Var, b: Var): (f: Formula)
    ensures forall m {:trigger f.Eval(m)} :: f.Eval(m) <==> (m(a) ==> !m(b))
  {
    Implies(Lit(a), Deny(b))
  }

  ghost predicate Models(cs: seq<Formula>, m: Assignment) {
    forall i :: 0 <= i < |cs| ==> cs[i].Eval(m)
  }

  /** The constraints cs say what cs0 says, and p as well. */
  ghost predicate Adds(cs0: seq<Formula>, cs: seq<Formula>, p: Assignment -> bool) {
    forall m {:trigger Models(cs, m)} {:trigger Models(cs0, m)} :: Models(cs, m) <==> Models(cs0, m) && p(m)
  }

  lemma AddsOne(cs: seq<Formula>, f: Formula)
    ensures Adds(cs, cs + [f], (m: Assignment) => f.Eval(m))
  {
    forall m ensures Models(cs + [f], m) <==> Models(cs, m) && f.Eval(m) {
      if Models(cs + [f], m) {
        assert (cs + [f])[|cs|] == f;
        assert forall i :: 0 <= i < |cs| ==> (cs + [f])[i] == cs[i];
      }
    }
  }

  lemma AddsBoth(cs0: seq<Formula>, cs1: seq<Formula>, cs2: seq<Formula>, p: Assignment -> bool, q: Assignment -> bool)
    requires Adds(cs0, cs1, p) && Adds(cs1, cs2, q)
    ensures Adds(cs0, cs2, (m: Assignment) => p(m) && q(m))
  {
  }

  /** A disjunction grown one member at a time from False. */
  method AnyOf(n: nat, part: nat -> Formula) returns (f: Formula)
    ensures forall m {:trigger f.Eval(m)} :: f.Eval(m) <==> exists q: nat :: q < n && part(q).Eval(m)
  {
    f := False;
    for q := 0 to n
      invariant forall m {:trigger f.Eval(m)} :: f.Eval(m) <==> exists p: nat :: p < q && part(p).Eval(m)
    {
      f := Or(f, part(q));
    }
  }

  /** No two of the variables are true: one constraint for each pair. */
  method Exclude(cs0: seq<Formula>, n: nat, v: nat -> Var) returns (cs: seq<Formula>)
    ensures Adds(cs0, cs, (m: Assignment) => forall q: nat, r: nat :: q < r < n ==> !(m(v(q)) && m(v(r))))
  {
    cs := cs0;
    for q := 0 to n
      invariant Adds(cs0, cs, (m: Assignment) => forall p: nat, r: nat :: p < q && p < r < n ==> !(m(v(p)) && m(v(r))))
    {
      ghost var before := cs;
      cs := ExcludeFrom(cs, n, v, q);
      AddsBoth(cs0, before, cs, (m: Assignment) => forall p: nat, r: nat :: p < q && p < r < n ==>
        !(m(v(p)) && m(v(r))),
               (m: Assignment) => forall r: nat :: q < r < n ==> !(m(v(q)) && m(v(r))));
    }
  }

  method ExcludeFrom(cs0: seq<Formula>, n: nat, v: nat -> Var, q: nat) returns (cs: seq<Formula>)
    requires q < n
    ensures Adds(cs0, cs, (m: Assignment) => forall r: nat :: q < r < n ==> !(m(v(q)) && m(v(r))))
  {
    cs := cs0;
    for r := q + 1 to n
      invariant Adds(cs0, cs, (m: Assignment) => forall p: nat :: q < p < r ==> !(m(v(q)) && m(v(p))))
    {
      AddsOne(cs, NotBoth(v(q), v(r)));
      cs := cs + [NotBoth(v(q), v(r))];
    }
  }

  /** One constraint for each number from lo up to n. */
  method AddRange(cs0: seq<Formula>, lo: nat, n: nat, part: nat -> Formula) returns (cs: seq<Formula>)
    ensures Adds(cs0, cs, (m: Assignment) => forall q: nat :: lo <= q < n ==> part(q).Eval(m))
  {
    cs := cs0;
    if lo >= n {
      return;
    }
    for q := lo to n
      invariant Adds(cs0, cs, (m: Assignment) => forall p: nat :: lo <= p < q ==> part(p).Eval(m))
    {
      AddsOne(cs, part(q));
      cs := cs + [part(q)];
    }
  }

  function Line(part: (nat, nat) -> Formula, row: nat): nat -> Formula {
    (q: nat) => part(row, q)
  }

  /** One constraint for each pair of numbers, row by row. */
  method AddGrid(cs0: seq<Formula>, n: nat, k: nat, part: (nat, nat) -> Formula) returns (cs: seq<Formula>)
    ensures Adds(cs0, cs, (m: Assignment) => forall p: nat, q: nat :: p < n && q < k ==> part(p, q).Eval(m))
  {
    cs := cs0;
    for r := 0 to n
      invariant Adds(cs0, cs, (m: Assignment) => forall p: nat, q: nat :: p < r && q < k ==> part(p, q).Eval(m))
    {
      ghost var before := cs;
      var line := Line(part, r);
      cs := AddRange(cs, 0, k, line);
      forall m ensures Models(cs, m) <==> Models(before, m) && forall q: nat :: q < k ==> part(r, q).Eval(m) {
        assert forall q: nat {:trigger line(q)} {:trigger part(r, q)} :: line(q) == part(r, q);
      }
    }
  }
}
