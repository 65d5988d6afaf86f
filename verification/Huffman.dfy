/** Huffman's minimization: a table of pairs of states, marked when a word tells them apart, with triggers that
    propagate marks. */
module Huffman {
  import opened Languages
  import opened Automata
  import opened Minimization
  import opened Products
  import BasicOperations
  import Inclusion

  type Marked = (nat, nat)

  function Norm(m1: nat, m2: nat): Marked {
    if m1 > m2 then (m2, m1) else (m1, m2)
  }

  /** Numbered states with their sorted rows. */
  ghost predicate IsTable(g: Graph, order: seq<State>, number: map<State, nat>, rows: seq<seq<Transition>>) {
    && g.Valid() && g.Deterministic() && g.Total() && Closed(g, number.Keys) && IsOrder(number.Keys, order)
         && |rows| == |order|
    && (forall q {:trigger number[q]} :: q in number ==> number[q] < |order| && order[number[q]] == q)
    && (forall i {:trigger rows[i]} :: 0 <= i < |rows| ==> IsRow(g, order[i], rows[i]))
  }

  ghost predicate IsRow(g: Graph, q: State, row: seq<Transition>) {
    q in g.trans && Inclusion.Separated(row) && forall t {:trigger t in row} {:trigger t in g.trans[q]} :: t in row <==>
      t in g.trans[q]
  }

  /** Some word tells the states of a pair apart. */
  ghost predicate Apart(g: Graph, order: seq<State>, p: Marked) {
    p.0 < p.1 < |order| && !g.SameRight(order[p.0], order[p.1])
  }

  ghost predicate Unordered(order: seq<State>, p: Marked) {
    p.0 < p.1 < |order|
  }

  // ----- the sweep over two rows -----

  /** Nothing overlaps outside the part that is still to come. */
  ghost predicate Passed(t1: seq<Transition>, t2: seq<Transition>, k1: nat, k2: nat, i: nat, j: nat) {
    i < |t1| && j < |t2| && (i < k1 || j < k2) && Overlap(t1[i], t2[j])
  }

  lemma AdvanceFirst(t1: seq<Transition>, t2: seq<Transition>, k1: nat, k2: nat, i: nat, j: nat)
    requires Inclusion.Separated(t1) && Inclusion.Separated(t2) && k1 < |t1| && k2 < |t2| && t1[k1].max < t2[k2].max
    requires Passed(t1, t2, k1 + 1, k2, i, j)
    ensures Passed(t1, t2, k1, k2, i, j) || (i == k1 && j == k2)
  {
  }

  lemma AdvanceSecond(t1: seq<Transition>, t2: seq<Transition>, k1: nat, k2: nat, i: nat, j: nat)
    requires Inclusion.Separated(t1) && Inclusion.Separated(t2) && k1 < |t1| && k2 < |t2| && t2[k2].max <= t1[k1].max
    requires Passed(t1, t2, k1, k2 + 1, i, j)
    ensures Passed(t1, t2, k1, k2, i, j) || (i == k1 && j == k2)
  {
  }

  function Target(number: map<State, nat>, t: Transition): nat {
    if t.to in number then number[t.to] else 0
  }

  /** The pair of states that two transitions lead to. */
  function Targets(number: map<State, nat>, t: Transition, u: Transition): Marked {
    Norm(Target(number, t), Target(number, u))
  }

  /** No character leads the two rows to a marked pair. */
  method StatesAgree(t1: seq<Transition>, t2: seq<Transition>, number: map<State, nat>, mark: set<Marked>)
      returns (r: bool)
    requires Inclusion.Separated(t1) && Inclusion.Separated(t2)
    ensures r <==> forall t, u {:trigger t in t1, u in t2} :: t in t1 && u in t2 && Overlap(t, u) ==>
        Targets(number, t, u) !in mark
  {
    var k1, k2 := 0, 0;
    while k1 < |t1| && k2 < |t2|
      invariant k1 <= |t1| && k2 <= |t2|
      invariant forall i: nat, j: nat {:trigger Passed(t1, t2, k1, k2, i, j)} :: Passed(t1, t2, k1, k2, i, j) ==>
          Targets(number, t1[i], t2[j]) !in mark
      decreases |t1| - k1 + |t2| - k2
    {
      ghost var j1, j2 := k1, k2;
      if t1[k1].max < t2[k2].min {
        k1 := k1 + 1;
      } else if t2[k2].max < t1[k1].min {
        k2 := k2 + 1;
      } else {
        if Targets(number, t1[k1], t2[k2]) in mark {
          assert t1[k1] in t1 && t2[k2] in t2;
          return false;
        }
        if t1[k1].max < t2[k2].max {
          k1 := k1 + 1;
        } else {
          k2 := k2 + 1;
        }
      }
      forall i: nat, j: nat | Passed(t1, t2, k1, k2, i, j) ensures Targets(number, t1[i], t2[j]) !in mark {
        if k1 > j1 {
          AdvanceFirst(t1, t2, j1, j2, i, j);
        } else {
          AdvanceSecond(t1, t2, j1, j2, i, j);
        }
      }
    }
    forall t, u | t in t1 && u in t2 && Overlap(t, u) ensures Targets(number, t, u) !in mark {
      var i :| 0 <= i < |t1| && t1[i] == t;
      var j :| 0 <= j < |t2| && t2[j] == u;
      assert Passed(t1, t2, k1, k2, i, j);
    }
    r := true;
  }

  function TriggersOf(triggers: map<Marked, set<Marked>>, p: Marked): set<Marked> {
    if p in triggers then triggers[p] else {}
  }

  /** The pair waits for each pair of different states its transitions lead to. */
  ghost predicate Waits(t1: seq<Transition>, t2: seq<Transition>, number: map<State, nat>, triggers: map<Marked,
      set<Marked>>, p: Marked) {
    forall t, u {:trigger t in t1, u in t2} :: t in t1 && u in t2 && Overlap(t, u) && t.to != u.to ==>
        p in TriggersOf(triggers, Targets(number, t, u))
  }

  ghost predicate Grows(triggers0: map<Marked, set<Marked>>, triggers: map<Marked, set<Marked>>) {
    forall q {:trigger TriggersOf(triggers, q)} :: TriggersOf(triggers0, q) <= TriggersOf(triggers, q)
  }

  /** What has been added to the triggers is p, where the rows overlap. */
  ghost predicate OnlyAdds(t1: seq<Transition>, t2: seq<Transition>, number: map<State, nat>, triggers0: map<Marked,
      set<Marked>>, triggers: map<Marked, set<Marked>>, p: Marked) {
    forall q, r {:trigger r in TriggersOf(triggers, q)} :: r in TriggersOf(triggers, q) && r !in TriggersOf(triggers0,
        q) ==>
      r == p && LeadTo(t1, t2, number, q)
  }

  ghost predicate LeadTo(t1: seq<Transition>, t2: seq<Transition>, number: map<State, nat>, q: Marked) {
    exists t, u :: t in t1 && u in t2 && Overlap(t, u) && t.to != u.to && q == Targets(number, t, u)
  }

  function AddTrigger(triggers: map<Marked, set<Marked>>, q: Marked, p: Marked): (r: map<Marked, set<Marked>>)
    ensures forall h :: TriggersOf(r, h) == if h == q then TriggersOf(triggers, h) + {p} else TriggersOf(triggers, h)
  {
    triggers[q := TriggersOf(triggers, q) + {p}]
  }

  method AddTriggers(t1: seq<Transition>, t2: seq<Transition>, number: map<State, nat>, triggers0: map<Marked,
      set<Marked>>, p: Marked)
      returns (triggers: map<Marked, set<Marked>>)
    requires Inclusion.Separated(t1) && Inclusion.Separated(t2)
    ensures Waits(t1, t2, number, triggers, p) && Grows(triggers0, triggers)
        && OnlyAdds(t1, t2, number, triggers0, triggers, p)
  {
    triggers := triggers0;
    var k1, k2 := 0, 0;
    while k1 < |t1| && k2 < |t2|
      invariant k1 <= |t1| && k2 <= |t2|
      invariant Grows(triggers0, triggers) && OnlyAdds(t1, t2, number, triggers0, triggers, p)
      invariant forall i: nat, j: nat {:trigger Passed(t1, t2, k1, k2, i, j)} ::
          Passed(t1, t2, k1, k2, i, j) && t1[i].to != t2[j].to ==>
          p in TriggersOf(triggers, Targets(number, t1[i], t2[j]))
      decreases |t1| - k1 + |t2| - k2
    {
      ghost var j1, j2, before := k1, k2, triggers;
      if t1[k1].max < t2[k2].min {
        k1 := k1 + 1;
      } else if t2[k2].max < t1[k1].min {
        k2 := k2 + 1;
      } else {
        if t1[k1].to != t2[k2].to {
          assert t1[k1] in t1 && t2[k2] in t2;
          var q := Targets(number, t1[k1], t2[k2]);
          assert LeadTo(t1, t2, number, q);
          triggers := AddTrigger(triggers, q, p);
        }
        if t1[k1].max < t2[k2].max {
          k1 := k1 + 1;
        } else {
          k2 := k2 + 1;
        }
      }
      forall i: nat, j: nat | Passed(t1, t2, k1, k2, i, j) && t1[i].to != t2[j].to
          ensures p in TriggersOf(triggers, Targets(number, t1[i], t2[j]))
      {
        if k1 > j1 {
          AdvanceFirst(t1, t2, j1, j2, i, j);
        } else {
          AdvanceSecond(t1, t2, j1, j2, i, j);
        }
        assert Passed(t1, t2, j1, j2, i, j) ==> p in TriggersOf(before, Targets(number, t1[i], t2[j]));
      }
    }
    forall t, u | t in t1 && u in t2 && Overlap(t, u) && t.to != u.to
        ensures p in TriggersOf(triggers, Targets(number, t, u))
    {
      var i :| 0 <= i < |t1| && t1[i] == t;
      var j :| 0 <= j < |t2| && t2[j] == u;
      assert Passed(t1, t2, k1, k2, i, j);
    }
  }

  // ----- the table of marks -----

  /** A mark on a pair that the triggers pass on stays inside the set. */
  ghost predicate Propagates(triggers: map<Marked, set<Marked>>, s: set<Marked>) {
    forall q {:trigger TriggersOf(triggers, q)} :: q in s ==> TriggersOf(triggers, q) <= s
  }

  ghost predicate InOrder(s: set<Marked>) {
    forall p {:trigger p in s} :: p in s ==> p.0 < p.1
  }

  class MarkTable {
    var mark: set<Marked>
    var triggers: map<Marked, set<Marked>>

    constructor ()
      ensures mark == {} && triggers == map[]
    {
      mark, triggers := {}, map[];
    }

    /** Marks a pair and everything that waits for it. */
    method MarkPair(ghost apart: set<Marked>, p: Marked)
      requires p in apart && p !in mark && mark <= apart && Propagates(triggers, apart) && InOrder(apart)
      modifies this`mark
      ensures old(mark) + {p} <= mark <= apart
      ensures forall q {:trigger TriggersOf(triggers, q)} :: q in mark && q !in old(mark) ==>
          TriggersOf(triggers, q) <= mark
      decreases apart - mark
    {
      mark := mark + {p};
      var todo := TriggersOf(triggers, p);
      while todo != {}
        invariant todo <= TriggersOf(triggers, p) && old(mark) + {p} <= mark <= apart
        invariant forall q {:trigger TriggersOf(triggers, q)} :: q in mark && q !in old(mark) && q != p ==>
            TriggersOf(triggers, q) <= mark
        invariant TriggersOf(triggers, p) - todo <= mark
      {
        var q :| q in todo;
        todo := todo - {q};
        assert q in apart;
        var m := Norm(q.0, q.1);
        if m !in mark {
          MarkPair(apart, m);
        }
      }
    }
  }

  /** The pairs of states that some word tells apart. */
  ghost function ApartPairs(g: Graph, order: seq<State>): set<Marked> {
    set i: nat, j: nat | i < j < |order| && !g.SameRight(order[i], order[j]) :: (i, j)
  }

  /** Row p has been looked at: it is marked, or it waits for all that could mark it. */
  ghost predicate Settled(rows: seq<seq<Transition>>, number: map<State, nat>, mark: set<Marked>, triggers: map<Marked,
      set<Marked>>, p: Marked)
    requires p.0 < |rows| && p.1 < |rows|
  {
    p in mark || Waits(rows[p.0], rows[p.1], number, triggers, p)
  }

  /** What holds between the turns of the loop over pairs. */
  ghost predicate Marking(g: Graph, order: seq<State>, mark: set<Marked>, triggers: map<Marked, set<Marked>>) {
    && mark <= ApartPairs(g, order) && Propagates(triggers, mark) && Propagates(triggers, ApartPairs(g, order))
    && (forall i: nat, j: nat {:trigger (i, j) in mark} ::
         i < j < |order| && (order[i] in g.accept) != (order[j] in g.accept) ==> (i, j) in mark)
  }

  /** A pair that leads to a pair told apart is told apart. */
  lemma LeadingIsApart(g: Graph, order: seq<State>, number: map<State, nat>, rows: seq<seq<Transition>>, p: Marked,
      q: Marked)
    requires IsTable(g, order, number, rows) && Unordered(order, p) && LeadTo(rows[p.0], rows[p.1], number, q)
        && q in ApartPairs(g, order)
    ensures p in ApartPairs(g, order)
  {
    var t, u :| t in rows[p.0] && u in rows[p.1] && Overlap(t, u) && t.to != u.to && q == Targets(number, t, u);
    assert IsRow(g, order[p.0], rows[p.0]) && IsRow(g, order[p.1], rows[p.1]);
    assert order[p.0] in order && order[p.1] in order;
    assert t.to in number && u.to in number;
    var c: Char := if t.min > u.min then t.min else u.min;
    assert t.Covers(c) && u.Covers(c);
    assert t.to in g.Succ(order[p.0], c) && u.to in g.Succ(order[p.1], c);
    if g.SameRight(order[p.0], order[p.1]) {
      SameRightStep(g, order[p.0], order[p.1], c, t.to, u.to);
    }
  }

  /** Adding the triggers of a pair keeps what holds. */
  lemma TriggersKeepMarking(g: Graph, order: seq<State>, number: map<State, nat>, rows: seq<seq<Transition>>,
      mark: set<Marked>,
                            triggers0: map<Marked, set<Marked>>, triggers: map<Marked, set<Marked>>, p: Marked)
    requires IsTable(g, order, number, rows) && Marking(g, order, mark, triggers0) && Unordered(order, p)
    requires OnlyAdds(rows[p.0], rows[p.1], number, triggers0, triggers, p)
    requires forall t, u {:trigger t in rows[p.0], u in rows[p.1]} ::
        t in rows[p.0] && u in rows[p.1] && Overlap(t, u) ==> Targets(number, t, u) !in mark
    ensures Marking(g, order, mark, triggers)
  {
    var apart := ApartPairs(g, order);
    forall q | q in apart ensures TriggersOf(triggers, q) <= apart {
      forall r | r in TriggersOf(triggers, q) ensures r in apart {
        if r in TriggersOf(triggers0, q) {
          assert TriggersOf(triggers0, q) <= apart;
        } else {
          LeadingIsApart(g, order, number, rows, p, q);
        }
      }
    }
    forall q | q in mark ensures TriggersOf(triggers, q) <= mark {
      forall r | r in TriggersOf(triggers, q) ensures r in mark {
        assert TriggersOf(triggers0, q) <= mark;
      }
    }
  }

  ghost predicate AllSettled(rows: seq<seq<Transition>>, number: map<State, nat>, mark: set<Marked>,
      triggers: map<Marked, set<Marked>>, n1: nat, n2: nat)
    requires n1 <= |rows|
  {
    forall p: Marked {:trigger Settled(rows, number, mark, triggers, p)} ::
      p.0 < p.1 < |rows| && (p.0 < n1 || (p.0 == n1 && p.1 < n2)) ==> Settled(rows, number, mark, triggers, p)
  }

  lemma StaysSettled(rows: seq<seq<Transition>>, number: map<State, nat>, mark0: set<Marked>, mark: set<Marked>,
                     triggers0: map<Marked, set<Marked>>, triggers: map<Marked, set<Marked>>, n1: nat, n2: nat)
    requires n1 < n2 < |rows| && mark0 <= mark && Grows(triggers0, triggers)
        && AllSettled(rows, number, mark0, triggers0, n1, n2)
    requires Settled(rows, number, mark, triggers, (n1, n2))
    ensures AllSettled(rows, number, mark, triggers, n1, n2 + 1)
  {
    forall p: Marked | p.0 < p.1 < |rows| && (p.0 < n1 || (p.0 == n1 && p.1 < n2 + 1))
        ensures Settled(rows, number, mark, triggers, p)
    {
      if p != (n1, n2) {
        assert Settled(rows, number, mark0, triggers0, p);
      }
    }
  }

  /** Acceptance tells these states apart. */
  method MarkByAcceptance(ghost g: Graph, ghost order: seq<State>, accepts: seq<bool>) returns (mark: set<Marked>)
    requires |accepts| == |order| && forall i {:trigger accepts[i]} :: 0 <= i < |order| ==>
        (accepts[i] <==> order[i] in g.accept)
    ensures forall p {:trigger p in mark} :: p in mark <==>
        p.0 < p.1 < |order| && (order[p.0] in g.accept) != (order[p.1] in g.accept)
  {
    mark := {};
    for n1 := 0 to |accepts|
      invariant forall p {:trigger p in mark} :: p in mark <==>
          p.0 < p.1 < |order| && p.0 < n1 && (order[p.0] in g.accept) != (order[p.1] in g.accept)
    {
      for n2 := n1 + 1 to |accepts|
        invariant forall p {:trigger p in mark} :: p in mark <==>
                    p.0 < p.1 < |order| && (p.0 < n1 || (p.0 == n1 && p.1 < n2))
                      && (order[p.0] in g.accept) != (order[p.1] in g.accept)
      {
        if accepts[n1] != accepts[n2] {
          mark := mark + {(n1, n2)};
        }
      }
    }
  }

  lemma AcceptanceIsApart(g: Graph, order: seq<State>, mark: set<Marked>)
    requires forall p {:trigger p in mark} :: p in mark <==>
        p.0 < p.1 < |order| && (order[p.0] in g.accept) != (order[p.1] in g.accept)
    ensures Marking(g, order, mark, map[])
  {
    forall p | p in mark ensures p in ApartPairs(g, order) {
      assert g.Accepts(order[p.0], []) != g.Accepts(order[p.1], []);
    }
  }

  /** The loops over all pairs: in the end exactly the pairs that some word tells apart are marked. */
  method Distinguish(ghost g: Graph, ghost order: seq<State>, number: map<State, nat>, rows: seq<seq<Transition>>,
      accepts: seq<bool>) returns (mark: set<Marked>)
    requires IsTable(g, order, number, rows)
    requires |accepts| == |order| && forall i {:trigger accepts[i]} :: 0 <= i < |order| ==>
        (accepts[i] <==> order[i] in g.accept)
    ensures mark == ApartPairs(g, order)
  {
    var table := new MarkTable();
    var initial := MarkByAcceptance(g, order, accepts);
    AcceptanceIsApart(g, order, initial);
    table.mark := initial;
    for n1 := 0 to |rows|
      invariant Marking(g, order, table.mark, table.triggers)
          && AllSettled(rows, number, table.mark, table.triggers, n1, n1 + 1)
    {
      var n2 := n1 + 1;
      while n2 < |rows|
        invariant n1 < n2 <= |rows|
        invariant Marking(g, order, table.mark, table.triggers)
            && AllSettled(rows, number, table.mark, table.triggers, n1, n2)
      {
        LookAtPair(g, order, number, rows, table, n1, n2);
        n2 := n2 + 1;
      }
      NextRow(rows, number, table.mark, table.triggers, n1);
    }
    mark := table.mark;
    forall p | p in ApartPairs(g, order) ensures p in mark {
      ApartIsMarked(g, order, number, rows, mark, table.triggers, p);
    }
  }

  lemma NextRow(rows: seq<seq<Transition>>, number: map<State, nat>, mark: set<Marked>, triggers: map<Marked,
      set<Marked>>, n1: nat)
    requires n1 < |rows| && AllSettled(rows, number, mark, triggers, n1, |rows|)
    ensures AllSettled(rows, number, mark, triggers, n1 + 1, n1 + 2)
  {
    forall p: Marked | p.0 < p.1 < |rows| && (p.0 < n1 + 1 || (p.0 == n1 + 1 && p.1 < n1 + 2))
        ensures Settled(rows, number, mark, triggers, p)
    {
      assert p.0 < n1 || (p.0 == n1 && p.1 < |rows|);
    }
  }

  /** One pair: it agrees and waits, or it is marked with all that wait for it. */
  method LookAtPair(ghost g: Graph, ghost order: seq<State>, number: map<State, nat>, rows: seq<seq<Transition>>,
      table: MarkTable, n1: nat, n2: nat)
    requires IsTable(g, order, number, rows) && n1 < n2 < |rows|
    requires Marking(g, order, table.mark, table.triggers) && AllSettled(rows, number, table.mark, table.triggers, n1,
        n2)
    modifies table
    ensures Marking(g, order, table.mark, table.triggers) && AllSettled(rows, number, table.mark, table.triggers, n1,
        n2 + 1)
  {
    ghost var mark0, triggers0 := table.mark, table.triggers;
    assert IsRow(g, order[n1], rows[n1]) && IsRow(g, order[n2], rows[n2]);
    if (n1, n2) !in table.mark {
      var agree := StatesAgree(rows[n1], rows[n2], number, table.mark);
      if agree {
        table.triggers := AddTriggers(rows[n1], rows[n2], number, table.triggers, (n1, n2));
        TriggersKeepMarking(g, order, number, rows, table.mark, triggers0, table.triggers, (n1, n2));
      } else {
        DisagreeingIsApart(g, order, number, rows, mark0, triggers0, (n1, n2));
        table.MarkPair(ApartPairs(g, order), (n1, n2));
        MarkedKeepsMarking(g, order, mark0, table.mark, table.triggers);
      }
    }
    StaysSettled(rows, number, mark0, table.mark, triggers0, table.triggers, n1, n2);
  }

  lemma MarkedKeepsMarking(g: Graph, order: seq<State>, mark0: set<Marked>, mark: set<Marked>, triggers: map<Marked,
      set<Marked>>)
    requires Marking(g, order, mark0, triggers) && mark0 <= mark <= ApartPairs(g, order)
    requires forall q {:trigger TriggersOf(triggers, q)} :: q in mark && q !in mark0 ==> TriggersOf(triggers, q) <= mark
    ensures Marking(g, order, mark, triggers)
  {
    forall q | q in mark ensures TriggersOf(triggers, q) <= mark {
      if q in mark0 {
        assert TriggersOf(triggers, q) <= mark0;
      }
    }
  }

  lemma DisagreeingIsApart(g: Graph, order: seq<State>, number: map<State, nat>, rows: seq<seq<Transition>>,
      mark: set<Marked>, triggers: map<Marked, set<Marked>>, p: Marked)
    requires IsTable(g, order, number, rows) && Marking(g, order, mark, triggers) && Unordered(order, p)
    requires exists t, u :: t in rows[p.0] && u in rows[p.1] && Overlap(t, u) && Targets(number, t, u) in mark
    ensures p in ApartPairs(g, order)
  {
    var t, u :| t in rows[p.0] && u in rows[p.1] && Overlap(t, u) && Targets(number, t, u) in mark;
    assert Targets(number, t, u) in ApartPairs(g, order);
    assert t.to != u.to;
    assert LeadTo(rows[p.0], rows[p.1], number, Targets(number, t, u));
    LeadingIsApart(g, order, number, rows, p, Targets(number, t, u));
  }

  /** States that no mark separates go together by every character. */
  lemma {:induction false} UnmarkedAgree(g: Graph, order: seq<State>, number: map<State, nat>,
      rows: seq<seq<Transition>>, mark: set<Marked>, triggers: map<Marked, set<Marked>>, i: nat, j: nat, w: Word)
    requires IsTable(g, order, number, rows) && Marking(g, order, mark, triggers)
        && AllSettled(rows, number, mark, triggers, |rows|, 0)
    requires i < |order| && j < |order| && (i == j || Norm(i, j) !in mark)
    ensures g.Accepts(order[i], w) <==> g.Accepts(order[j], w)
    decreases |w|
  {
    if i != j {
      var p := Norm(i, j);
      assert order[p.0] in order && order[p.1] in order;
      if w == [] {
        assert (p.0, p.1) in mark <==> p in mark;
      } else {
        var x, y := StepTogether(g, order, number, rows, mark, triggers, p, w[0]);
        UnmarkedAgree(g, order, number, rows, mark, triggers, number[x], number[y], w[1..]);
        OnlyStep(g, order[p.0], w, x);
        OnlyStep(g, order[p.1], w, y);
      }
    }
  }

  lemma OnlyStep(g: Graph, q: State, w: Word, x: State)
    requires g.Deterministic() && w != [] && x in g.Succ(q, w[0])
    ensures g.Accepts(q, w) <==> g.Accepts(x, w[1..])
  {
    if g.Accepts(q, w) {
      var r :| r in g.Succ(q, w[0]) && g.Accepts(r, w[1..]);
      DeterministicStep(g, q, w[0], r, x);
    }
  }

  lemma StepTogether(g: Graph, order: seq<State>, number: map<State, nat>, rows: seq<seq<Transition>>,
      mark: set<Marked>, triggers: map<Marked, set<Marked>>, p: Marked, c: Char) returns (x: State, y: State)
    requires IsTable(g, order, number, rows) && Marking(g, order, mark, triggers)
        && AllSettled(rows, number, mark, triggers, |rows|, 0)
    requires Unordered(order, p) && p !in mark
    ensures x in g.Succ(order[p.0], c) && y in g.Succ(order[p.1], c) && x in number && y in number
    ensures number[x] == number[y] || Norm(number[x], number[y]) !in mark
  {
    assert IsRow(g, order[p.0], rows[p.0]) && IsRow(g, order[p.1], rows[p.1]);
    assert order[p.0] in order && order[p.1] in order;
    assert g.Succ(order[p.0], c) != {} && g.Succ(order[p.1], c) != {};
    x :| x in g.Succ(order[p.0], c);
    y :| y in g.Succ(order[p.1], c);
    var t :| t in g.Out(order[p.0]) && t.Covers(c) && t.to == x;
    var u :| u in g.Out(order[p.1]) && u.Covers(c) && u.to == y;
    assert t in rows[p.0] && u in rows[p.1] && Overlap(t, u);
    assert Settled(rows, number, mark, triggers, p);
    var d := Norm(number[x], number[y]);
    assert d in mark ==> TriggersOf(triggers, d) <= mark;
    if x != y {
      assert p in TriggersOf(triggers, Targets(number, t, u));
      assert Targets(number, t, u) == d;
    }
  }

  lemma ApartIsMarked(g: Graph, order: seq<State>, number: map<State, nat>, rows: seq<seq<Transition>>,
      mark: set<Marked>, triggers: map<Marked, set<Marked>>, p: Marked)
    requires IsTable(g, order, number, rows) && Marking(g, order, mark, triggers)
        && AllSettled(rows, number, mark, triggers, |rows|, |rows| + 1)
    requires p in ApartPairs(g, order)
    ensures p in mark
  {
    if p !in mark {
      assert AllSettled(rows, number, mark, triggers, |rows|, 0);
      forall w ensures g.Accepts(order[p.0], w) <==> g.Accepts(order[p.1], w) {
        UnmarkedAgree(g, order, number, rows, mark, triggers, p.0, p.1, w);
      }
      assert g.SameRight(order[p.0], order[p.1]);
    }
  }

  // ----- classes -----

  ghost predicate Same(g: Graph, order: seq<State>, i: nat, j: nat)
    requires i < |order| && j < |order|
  {
    g.SameRight(order[i], order[j])
  }

  /** The states equivalent to one of the first n1 have their class. */
  ghost predicate Classified(g: Graph, order: seq<State>, cls: seq<int>, n1: nat, numclasses: nat) {
    && |cls| == |order| && n1 <= |order|
    && (forall i {:trigger cls[i]} :: 0 <= i < |cls| ==> -1 <= cls[i] < numclasses)
    && (forall i: nat {:trigger cls[i]} :: i < |cls| ==>
         (cls[i] >= 0 <==> exists m: nat :: m < n1 && Same(g, order, m, i)))
    && (forall i: nat, j: nat {:trigger cls[i], cls[j]} :: i < |cls| && j < |cls| && cls[i] >= 0 && cls[j] >= 0 ==>
         (cls[i] == cls[j] <==> Same(g, order, i, j)))
  }

  /** The class of state n1: the states not marked apart from it. */
  method NewClass(ghost g: Graph, ghost order: seq<State>, mark: set<Marked>, cls0: seq<int>, n1: nat, numclasses: nat)
      returns (cls: seq<int>)
    requires mark == ApartPairs(g, order) && Classified(g, order, cls0, n1, numclasses) && n1 < |order|
        && cls0[n1] == -1
    ensures Classified(g, order, cls, n1 + 1, numclasses + 1)
  {
    cls := cls0[n1 := numclasses];
    for n2 := n1 + 1 to |cls0|
      invariant |cls| == |cls0|
      invariant forall j: nat {:trigger cls[j]} :: j < |cls| ==> cls[j] == if n1 <= j < n2 && Same(g, order, n1, j)
          then numclasses else cls0[j]
    {
      assert (n1, n2) in ApartPairs(g, order) <==> !Same(g, order, n1, n2);
      if (n1, n2) !in mark {
        cls := cls[n2 := numclasses];
      }
    }
    ClassIsNew(g, order, cls0, cls, n1, numclasses);
  }

  lemma ClassIsNew(g: Graph, order: seq<State>, cls0: seq<int>, cls: seq<int>, n1: nat, numclasses: nat)
    requires Classified(g, order, cls0, n1, numclasses) && n1 < |order| && cls0[n1] == -1 && |cls| == |cls0|
    requires forall j: nat {:trigger cls[j]} :: j < |cls| ==> cls[j] == if n1 <= j && Same(g, order, n1, j)
        then numclasses else cls0[j]
    ensures Classified(g, order, cls, n1 + 1, numclasses + 1)
  {
    forall j: nat | j < n1 ensures !Same(g, order, n1, j) {
      assert Same(g, order, n1, j) ==> Same(g, order, j, n1);
    }
    forall i: nat | i < |cls| ensures cls[i] >= 0 <==> exists m: nat :: m < n1 + 1 && Same(g, order, m, i) {
      assert cls0[i] >= 0 <==> exists m: nat :: m < n1 && Same(g, order, m, i);
    }
    forall i: nat, j: nat | i < |cls| && j < |cls| && cls[i] >= 0 && cls[j] >= 0
        ensures cls[i] == cls[j] <==> Same(g, order, i, j)
    {
      var _ := cls0[i];
      var _ := cls0[j];
      SameIsEquivalence(g, order, n1, i, j);
    }
  }

  lemma SameIsEquivalence(g: Graph, order: seq<State>, m: nat, i: nat, j: nat)
    requires m < |order| && i < |order| && j < |order|
    ensures Same(g, order, i, i) && (Same(g, order, i, j) <==> Same(g, order, j, i))
    ensures Same(g, order, m, i) ==> (Same(g, order, m, j) <==> Same(g, order, i, j))
    ensures Same(g, order, m, j) ==> (Same(g, order, m, i) <==> Same(g, order, i, j))
  {
  }

  /** Equivalence class numbers for all states. */
  method AssignClasses(ghost g: Graph, ghost order: seq<State>, mark: set<Marked>, n: nat)
      returns (block: seq<nat>, numclasses: nat)
    requires mark == ApartPairs(g, order) && n == |order|
    ensures Classifies(g, order, block) && forall i :: 0 <= i < |block| ==> block[i] < numclasses
  {
    var cls: seq<int> := seq(n, _ => -1);
    numclasses := 0;
    for n1 := 0 to n
      invariant Classified(g, order, cls, n1, numclasses)
    {
      if cls[n1] == -1 {
        cls := NewClass(g, order, mark, cls, n1, numclasses);
        numclasses := numclasses + 1;
      } else {
        OldClass(g, order, cls, n1, numclasses);
      }
    }
    forall i: nat | i < n ensures cls[i] >= 0 {
      SameIsEquivalence(g, order, i, i, i);
    }
    block := seq(n, i requires 0 <= i < n => cls[i]);
    assert forall i: nat {:trigger block[i]} :: i < n ==> block[i] == cls[i];
    forall i: nat, j: nat | i < |order| && j < |order|
        ensures block[i] == block[j] <==> g.SameRight(order[i], order[j])
    {
      assert Same(g, order, i, j) <==> g.SameRight(order[i], order[j]);
    }
  }

  lemma OldClass(g: Graph, order: seq<State>, cls: seq<int>, n1: nat, numclasses: nat)
    requires Classified(g, order, cls, n1, numclasses) && n1 < |order| && cls[n1] != -1
    ensures Classified(g, order, cls, n1 + 1, numclasses)
  {
    var m: nat :| m < n1 && Same(g, order, m, n1);
    forall i: nat | i < |cls| ensures cls[i] >= 0 <==> exists m: nat :: m < n1 + 1 && Same(g, order, m, i) {
      SameIsEquivalence(g, order, n1, m, i);
      assert Same(g, order, n1, i) ==> Same(g, order, m, i);
    }
  }

  // ----- the whole operation -----

  /** The last state of each class stands for it; the class of the initial state becomes the initial state. */
  method Representatives(order: seq<State>, block: seq<nat>, numclasses: nat, initial: State)
      returns (rep: seq<nat>, start: nat)
    requires |block| == |order| && (forall i :: 0 <= i < |block| ==> block[i] < numclasses) && initial in order
    requires forall i, j :: 0 <= i < j < |order| ==> order[i] != order[j]
    ensures |rep| == numclasses && forall n :: 0 <= n < |rep| ==> rep[n] < |order|
    ensures forall i :: 0 <= i < |block| ==> block[rep[block[i]]] == block[i]
    ensures exists i :: 0 <= i < |order| && order[i] == initial && start == block[i]
  {
    rep, start := seq(numclasses, _ => 0), 0;
    for n := 0 to |order|
      invariant |rep| == numclasses && forall m :: 0 <= m < |rep| ==> rep[m] < |order|
      invariant forall i :: 0 <= i < n ==> block[rep[block[i]]] == block[i]
      invariant initial in order[..n] ==> exists i :: 0 <= i < |order| && order[i] == initial && start == block[i]
    {
      rep := rep[block[n] := n];
      if order[n] == initial {
        start := block[n];
      }
    }
    assert order[..|order|] == order;
  }

  method BuildStates(g: Graph, order: seq<State>, number: map<State, nat>, block: seq<nat>, rep: seq<nat>)
      returns (trans: map<State, set<Transition>>, accept: set<State>)
    requires |block| == |order| && forall n :: 0 <= n < |rep| ==> rep[n] < |order|
    ensures (forall n: nat :: n in trans <==> n < |rep|) && accept <= trans.Keys
    ensures forall n :: n in trans ==>
        (n in accept <==> order[rep[n]] in g.accept) && trans[n] == RenamedRow(g.Out(order[rep[n]]), number, block)
  {
    trans, accept := map[], {};
    for n := 0 to |rep|
      invariant (forall m: nat :: m in trans <==> m < n) && accept <= trans.Keys
      invariant forall m :: m in trans ==>
          (m in accept <==> order[rep[m]] in g.accept) && trans[m] == RenamedRow(g.Out(order[rep[m]]), number, block)
    {
      if order[rep[n]] in g.accept {
        accept := accept + {n};
      }
      trans := trans[n := RenamedRow(g.Out(order[rep[n]]), number, block)];
    }
  }

  /** The sorted rows and the acceptance of the numbered states. */
  method ReadRows(g: Graph, order: seq<State>, number: map<State, nat>)
      returns (rows: seq<seq<Transition>>, accepts: seq<bool>)
    requires g.Valid() && g.Deterministic() && g.Total() && Closed(g, number.Keys) && IsOrder(number.Keys, order)
    requires forall q {:trigger number[q]} :: q in number ==> number[q] < |order| && order[number[q]] == q
    ensures IsTable(g, order, number, rows)
    ensures |accepts| == |order| && forall i {:trigger accepts[i]} :: 0 <= i < |order| ==>
        (accepts[i] <==> order[i] in g.accept)
  {
    rows, accepts := [], [];
    for i := 0 to |order|
      invariant |rows| == |accepts| == i
      invariant forall j {:trigger rows[j]} :: 0 <= j < i ==> IsRow(g, order[j], rows[j])
      invariant forall j {:trigger accepts[j]} :: 0 <= j < i ==> (accepts[j] <==> order[j] in g.accept)
    {
      assert order[i] in order;
      var row := SortTransitions(g.trans[order[i]], false);
      Inclusion.SortedIsSeparated(g, order[i], row);
      rows := rows + [row];
      accepts := accepts + [order[i] in g.accept];
    }
  }

  /** The quotient of the reachable states by the pairs left unmarked. */
  method Quotient(g: Graph, states: set<State>)
      returns (h: Graph, numclasses: nat, ghost order: seq<State>, ghost number: map<State, nat>, ghost block: seq<nat>,
      ghost rep: seq<nat>)
    requires g.Valid() && g.Deterministic() && g.Total() && Closed(g, states) && g.initial in states
    ensures IsQuotient(g, order, number, block, rep, h) && Classifies(g, order, block) && |rep| == numclasses
  {
    var order0, number0 := Enumerate(states);
    order, number := order0, number0;
    var rows, accepts := ReadRows(g, order0, number0);
    var mark := Distinguish(g, order0, number0, rows, accepts);
    var block0;
    block0, numclasses := AssignClasses(g, order0, mark, |order0|);
    var rep0, start := Representatives(order0, block0, numclasses, g.initial);
    var trans, accept := BuildStates(g, order0, number0, block0, rep0);
    h := Graph(start, accept, trans);
    block, rep := block0, rep0;
  }

  /** Minimizes the automaton. */
  method MinimizeHuffman(a: Automaton)
    requires a.Valid()
    modifies a
    ensures a.Clean() && a.deterministic
    ensures SameLanguage(old(a.Snapshot()), a.Snapshot())
    ensures a.Snapshot().Minimal()
  {
    BasicOperations.Determinize(a);
    ghost var d := a.Snapshot();
    a.Totalize();
    ghost var g := a.Snapshot();
    var states := a.GetStates();
    var h, numclasses;
    ghost var order, number, block, rep;
    h, numclasses, order, number, block, rep := Quotient(a.Snapshot(), states);
    QuotientIsValid(g, order, number, block, rep, h);
    Install(a, h, numclasses);
    QuotientIsMinimal(g, order, number, block, rep, h, a.Snapshot());
    QuotientLanguage(g, order, number, block, rep, h, a.Snapshot());
  }
}
