/** Hopcroft's partition refinement, as MinimizationOperations runs it on numbered states and letters.

    A Java boolean table is the set of its true entries; the lists in the table active are linked lists. */
module Hopcroft {
  import opened Equivalence
  import opened StateLists

  // ----- the structures and what ties them to the partition -----

  ghost predicate NoDuplicates(a: seq<nat>) {
    forall i, j :: 0 <= i < j < |a| ==> a[i] != a[j]
  }

  /** reverse[r][x] lists the states that go by x to r. */
  ghost predicate IsReverse(t: Table, reverse: seq<seq<seq<nat>>>) {
    && t.Valid() && |reverse| == t.Size()
    && (forall r :: 0 <= r < |reverse| ==> |reverse[r]| == t.letters)
    && (forall r, x, s: nat {:trigger s in reverse[r][x]} :: 0 <= r < |reverse| && 0 <= x < t.letters ==>
          (s in reverse[r][x] <==> s < t.Size() && t.next[s][x] == r))
  }

  /** partition[b] lists the states of block b. */
  ghost predicate IsPartition(block: seq<nat>, partition: seq<seq<nat>>) {
    && |partition| == |block|
    && (forall b, s: nat {:trigger s in partition[b]} :: 0 <= b < |partition| ==>
         (s in partition[b] <==> s < |block| && block[s] == b))
    && (forall b :: 0 <= b < |partition| ==> NoDuplicates(partition[b]))
  }

  ghost predicate IsTarget(t: Table, q: nat, x: nat)
    requires t.Valid() && x < t.letters
  {
    exists s :: 0 <= s < t.Size() && t.next[s][x] == q
  }

  /** The lists are sound, and a state that some state reaches by a letter is on the list of its own block. */
  ghost predicate IsActive(t: Table, block: seq<nat>, table: ListTable, active2: map<Cell, StateListNode>)
    reads table, table.lists, table.nodes
  {
    && Blocks(t, block) && table.n == t.Size() && table.m == t.letters && table.SoundLists()
    && Consistent(table.n, table.m, table.Contents(), active2)
    && (forall p: Cell {:trigger p in active2} :: p in active2 <==>
         p.0 < t.Size() && p.1 < t.letters && IsTarget(t, p.0, p.1))
    && (forall p: Cell {:trigger active2[p]} :: p in active2 ==> active2[p].sl.home.0 == block[p.0])
  }

  /** Every raised flag of pending2 belongs to an entry still in the queue. */
  ghost predicate IsQueued(t: Table, pending: seq<Pair>, pending2: set<Pair>, k: nat) {
    && (forall e :: e in pending2 ==> e in pending)
    && (forall e :: e in pending ==> e.0 < k && e.1 < t.letters)
  }

  // ----- moving one state between lists -----

  /** after is before with the node of s for the letters that f picks, where it was on a list of block j, now on one of
      block k. */
  ghost predicate NodesMoved(before: map<Cell, StateListNode>, after: map<Cell, StateListNode>, s: nat, lo: nat,
      hi: nat, j: nat, k: nat) {
    && after.Keys == before.Keys
    && (forall p: Cell {:trigger after[p]} :: p in after ==>
          after[p].sl.home.0 == if p.0 == s && lo <= p.1 < hi && before[p].sl.home.0 == j then k
            else before[p].sl.home.0)
  }

  /** The node of s on the list of block j and letter x goes to the list of block k. */
  method MoveListed(table: ListTable, s: nat, x: nat, j: nat, k: nat, active20: map<Cell, StateListNode>)
      returns (active2: map<Cell, StateListNode>)
    requires table.SoundLists() && Consistent(table.n, table.m, table.Contents(), active20)
    requires s < table.n && x < table.m && j < table.n && k < table.n && j != k
    requires (s, x) in active20 && active20[(s, x)].sl == table.active[j][x]
    modifies table, table.lists, table.nodes
    ensures table.SoundLists() && fresh(table.nodes - old(table.nodes))
    ensures Consistent(table.n, table.m, table.Contents(), active2)
    ensures NodesMoved(active20, active2, s, x, x + 1, j, k)
  {
    NodeIsListed(table, active20, s, x, j);
    var node := table.Transfer(active20[(s, x)], j, k, x, active20);
    active2 := active20[(s, x) := node];
    OneNodeMoved(active20, active2, s, x, j, k);
  }

  method MoveNode(table: ListTable, s: nat, x: nat, j: nat, k: nat, active20: map<Cell, StateListNode>)
      returns (active2: map<Cell, StateListNode>)
    requires table.SoundLists() && Consistent(table.n, table.m, table.Contents(), active20)
    requires s < table.n && x < table.m && j < table.n && k < table.n && j != k
    modifies table, table.lists, table.nodes
    ensures table.SoundLists() && fresh(table.nodes - old(table.nodes))
    ensures Consistent(table.n, table.m, table.Contents(), active2)
    ensures NodesMoved(active20, active2, s, x, x + 1, j, k)
  {
    active2 := active20;
    if (s, x) in active2 {
      NodeIsListed(table, active2, s, x, j);
      if active2[(s, x)].sl == table.active[j][x] {
        active2 := MoveListed(table, s, x, j, k, active20);
        return;
      }
    }
    OneNodeMoved(active20, active2, s, x, j, k);
  }

  lemma OneNodeMoved(before: map<Cell, StateListNode>, after: map<Cell, StateListNode>, s: nat, x: nat, j: nat, k: nat)
    requires if (s, x) in before && before[(s, x)].sl.home.0 == j
             then (s, x) in after && after[(s, x)].sl.home.0 == k && after == before[(s, x) := after[(s, x)]]
             else after == before
    ensures NodesMoved(before, after, s, x, x + 1, j, k)
  {
  }

  lemma NodeIsListed(table: ListTable, active2: map<Cell, StateListNode>, s: nat, x: nat, j: nat)
    requires table.SoundLists() && Consistent(table.n, table.m, table.Contents(), active2)
    requires (s, x) in active2 && j < table.n
    ensures s < table.n && x < table.m && active2[(s, x)].q == s
    ensures active2[(s, x)].sl == table.active[j][x] <==> active2[(s, x)].sl.home.0 == j
    ensures active2[(s, x)].sl == table.active[j][x] ==> active2[(s, x)] in table.active[j][x].nodes
  {
    var b := active2[(s, x)].sl.home.0;
    assert active2[(s, x)] in table.Contents()[(b, x)];
    assert table.active[b][x].Valid();
  }

  method MoveActive(table: ListTable, s: nat, j: nat, k: nat, active20: map<Cell, StateListNode>)
      returns (active2: map<Cell, StateListNode>)
    requires table.SoundLists() && Consistent(table.n, table.m, table.Contents(), active20)
    requires s < table.n && j < table.n && k < table.n && j != k
    modifies table, table.lists, table.nodes
    ensures table.SoundLists() && fresh(table.nodes - old(table.nodes))
    ensures Consistent(table.n, table.m, table.Contents(), active2)
    ensures NodesMoved(active20, active2, s, 0, table.m, j, k)
  {
    active2 := active20;
    for c := 0 to table.m
      invariant table.SoundLists() && fresh(table.nodes - old(table.nodes))
      invariant Consistent(table.n, table.m, table.Contents(), active2)
      invariant NodesMoved(active20, active2, s, 0, c, j, k)
    {
      ghost var before := active2;
      active2 := MoveNode(table, s, c, j, k, active2);
      MovedFurther(active20, before, active2, s, c, j, k);
    }
  }

  lemma MovedFurther(first: map<Cell, StateListNode>, before: map<Cell, StateListNode>, after: map<Cell, StateListNode>,
      s: nat, c: nat, j: nat, k: nat)
    requires NodesMoved(first, before, s, 0, c, j, k) && NodesMoved(before, after, s, c, c + 1, j, k)
    ensures NodesMoved(first, after, s, 0, c + 1, j, k)
  {
    forall p: Cell | p in after
      ensures after[p].sl.home.0 == if p.0 == s && 0 <= p.1 < c + 1 && first[p].sl.home.0 == j then k
          else first[p].sl.home.0
    {
      assert before[p].sl.home.0 == if p.0 == s && 0 <= p.1 < c && first[p].sl.home.0 == j then k
          else first[p].sl.home.0;
    }
  }

  // ----- splitting one block -----

  function Remove(a: seq<nat>, s: nat): seq<nat> {
    if a == [] then [] else if a[0] == s then a[1..] else [a[0]] + Remove(a[1..], s)
  }

  lemma {:induction false} Removed(a: seq<nat>, s: nat)
    requires NoDuplicates(a)
    ensures NoDuplicates(Remove(a, s)) && forall u :: u in Remove(a, s) <==> u in a && u != s
  {
    if a != [] && a[0] != s {
      Removed(a[1..], s);
      assert forall u :: u in a <==> u == a[0] || u in a[1..];
      assert a[0] !in Remove(a[1..], s) by {
        assert forall i :: 1 <= i < |a| ==> a[i] != a[0];
      }
    } else if a != [] {
      assert forall u :: u in a <==> u == a[0] || u in a[1..];
    }
  }

  function MoveState(partition: seq<seq<nat>>, s: nat, j: nat, k: nat): seq<seq<nat>>
    requires j < |partition| && k < |partition|
  {
    partition[j := Remove(partition[j], s)][k := partition[k] + [s]]
  }

  lemma StateMoved(block: seq<nat>, partition: seq<seq<nat>>, s: nat, j: nat, k: nat)
    requires IsPartition(block, partition) && s < |block| && j < |partition| && k < |partition| && j != k
        && block[s] == j
    ensures IsPartition(block[s := k], MoveState(partition, s, j, k))
  {
    Removed(partition[j], s);
    var after := MoveState(partition, s, j, k);
    forall b, u: nat | 0 <= b < |after| ensures u in after[b] <==> u < |block| && block[s := k][u] == b {
      assert b != j && b != k ==> after[b] == partition[b];
      assert u in partition[b] <==> u < |block| && block[u] == b;
    }
    assert s !in partition[k];
  }

  /** The loop that moves the states of list from block j to the new block k. */
  method SplitBlock(t: Table, table: ListTable, list: seq<nat>, j: nat, k: nat, block0: seq<nat>,
      partition0: seq<seq<nat>>,
                    active20: map<Cell, StateListNode>)
      returns (block: seq<nat>, partition: seq<seq<nat>>, active2: map<Cell, StateListNode>)
    requires IsActive(t, block0, table, active20) && IsPartition(block0, partition0)
    requires j < t.Size() && k < t.Size() && j != k
    requires NoDuplicates(list) && forall s :: s in list ==> s < t.Size() && block0[s] == j
    modifies table, table.lists, table.nodes
    ensures fresh(table.nodes - old(table.nodes))
    ensures IsActive(t, block, table, active2) && IsPartition(block, partition)
    ensures forall s :: 0 <= s < |block| ==> block[s] == if s in list then k else block0[s]
  {
    block, partition, active2 := block0, partition0, active20;
    for i := 0 to |list|
      invariant fresh(table.nodes - old(table.nodes))
      invariant IsActive(t, block, table, active2) && IsPartition(block, partition)
      invariant forall s :: 0 <= s < |block| ==> block[s] == if s in list[..i] then k else block0[s]
    {
      var s := list[i];
      assert s in list && s !in list[..i];
      StateMoved(block, partition, s, j, k);
      partition := MoveState(partition, s, j, k);
      ghost var before, active1 := block, active2;
      block := block[s := k];
      active2 := MoveActive(table, s, j, k, active2);
      forall p: Cell | p in active2 ensures active2[p].sl.home.0 == block[p.0] {
        assert active1[p].sl.home.0 == before[p.0];
      }
    }
  }

  // ----- collecting the states that must leave their blocks -----

  /** hit has been sorted by blocks, and refine lists the blocks it touches. */
  ghost predicate IsCollected(block: seq<nat>, hit: set<nat>, splitblock: seq<seq<nat>>, refine: seq<nat>) {
    && |splitblock| == |block|
    && (forall j, s: nat {:trigger s in splitblock[j]} :: 0 <= j < |block| ==>
         (s in splitblock[j] <==> s in hit && s < |block| && block[s] == j))
    && (forall j :: 0 <= j < |block| ==> NoDuplicates(splitblock[j]))
    && NoDuplicates(refine) && (forall j: nat :: j in refine <==> j < |block| && splitblock[j] != [])
  }

  method Collect(list: seq<nat>, block: seq<nat>, split20: set<nat>, splitblock0: seq<seq<nat>>, refine0: seq<nat>)
      returns (split2: set<nat>, splitblock: seq<seq<nat>>, refine: seq<nat>)
    requires (forall s :: s in list ==> s < |block|) && (forall s :: 0 <= s < |block| ==> block[s] < |block|)
    requires IsCollected(block, split20, splitblock0, refine0)
    ensures IsCollected(block, split2, splitblock, refine)
    ensures split2 == split20 + set s | s in list
  {
    split2, splitblock, refine := split20, splitblock0, refine0;
    for i := 0 to |list|
      invariant IsCollected(block, split2, splitblock, refine)
      invariant split2 == split20 + set s | s in list[..i]
    {
      var s := list[i];
      assert s in list;
      if s !in split2 {
        split2 := split2 + {s};
        var j := block[s];
        assert s !in splitblock[j];
        splitblock := splitblock[j := splitblock[j] + [s]];
        if j !in refine {
          refine := refine + [j];
        }
      }
    }
  }

  /** Walks the active list of the splitter and collects the predecessors of its states. */
  method CollectSplit(t: Table, reverse: seq<seq<seq<nat>>>, list: StateList, block: seq<nat>, x: nat)
      returns (splitblock: seq<seq<nat>>, refine: seq<nat>, ghost hit: set<nat>)
    requires Blocks(t, block) && IsReverse(t, reverse) && x < t.letters
    requires list.Valid() && forall node :: node in list.nodes ==> node.q < t.Size()
    requires forall s :: 0 <= s < |block| ==> block[s] < |block|
    ensures IsCollected(block, hit, splitblock, refine)
    ensures forall s: nat :: s in hit <==> s < |block| && Reached(t, x, list.nodes, s)
  {
    var split2: set<nat> := {};
    splitblock, refine := seq(t.Size(), _ => []), [];
    ghost var i := 0;
    var m := list.first;
    while m != null
      invariant 0 <= i <= |list.nodes| && m == if i < |list.nodes| then list.nodes[i] else null
      invariant IsCollected(block, split2, splitblock, refine)
      invariant forall s: nat :: s in split2 <==> s < |block| && Reached(t, x, list.nodes[..i], s)
      decreases |list.nodes| - i
    {
      assert list.Linked(i) && m in list.nodes;
      split2, splitblock, refine := Collect(reverse[m.q][x], block, split2, splitblock, refine);
      assert list.nodes[..i + 1] == list.nodes[..i] + [m];
      m := m.next;
      i := i + 1;
    }
    hit := split2;
    assert list.nodes[..i] == list.nodes;
  }

  /** s goes by x to the state of one of the nodes. */
  ghost predicate Reached(t: Table, x: nat, nodes: seq<StateListNode>, s: nat)
    requires t.Valid() && s < t.Size() && x < t.letters
  {
    exists node :: node in nodes && node.q == t.next[s][x]
  }

  lemma ActiveNode(t: Table, block: seq<nat>, table: ListTable, active2: map<Cell, StateListNode>, p: nat, x: nat,
      node: StateListNode)
    requires IsActive(t, block, table, active2) && p < t.Size() && x < t.letters && node in table.active[p][x].nodes
    ensures node.q < t.Size() && block[node.q] == p
  {
    assert node in table.Contents()[(p, x)];
    assert active2[(node.q, x)] == node;
  }

  /** The active list of (p, x) reaches exactly the states that go by x into block p. */
  lemma ReachedIsInto(t: Table, block: seq<nat>, table: ListTable, active2: map<Cell, StateListNode>, p: nat, x: nat,
      s: nat)
    requires IsActive(t, block, table, active2) && p < t.Size() && x < t.letters && s < t.Size()
    ensures Reached(t, x, table.active[p][x].nodes, s) <==> Into(t, block, p, x, s)
  {
    if Reached(t, x, table.active[p][x].nodes, s) {
      var node :| node in table.active[p][x].nodes && node.q == t.next[s][x];
      ActiveNode(t, block, table, active2, p, x, node);
    }
    if Into(t, block, p, x, s) {
      var r := t.next[s][x];
      assert IsTarget(t, r, x);
      assert (r, x) in active2;
      assert active2[(r, x)] in table.Contents()[(p, x)];
    }
  }

  // ----- the main loop -----

  /** The local variables of minimizeHopcroft that its main loop changes. */
  datatype Work = Work(partition: seq<seq<nat>>, block: seq<nat>, active2: map<Cell, StateListNode>, pending: seq<Pair>,
    pending2: set<Pair>, k: nat)

  /** All k blocks are inhabited, or no second block can ever be needed. */
  ghost predicate HasRoom(t: Table, block: seq<nat>, k: nat)
    requires Blocks(t, block)
  {
    && t.Size() >= 2 && k >= 2
    && (forall s :: 0 <= s < |block| ==> block[s] < k)
    && (Onto(block, k) || (k == 2 && forall q, p :: 0 <= q < t.Size() && 0 <= p < t.Size() ==>
         t.accept[q] == t.accept[p]))
  }

  lemma RoomIsBounded(t: Table, block: seq<nat>, k: nat)
    requires Blocks(t, block) && HasRoom(t, block, k)
    ensures k <= t.Size()
  {
    if Onto(block, k) {
      OntoBounds(block, k);
    }
  }

  /** A block holding two states that a word tells apart can be split: there is a place for one more block. */
  lemma RoomForSplit(t: Table, block: seq<nat>, k: nat, s: nat, u: nat)
    requires Blocks(t, block) && HasRoom(t, block, k) && s < t.Size() && u < t.Size()
    requires block[s] == block[u] && !t.Equivalent(s, u)
    ensures k < t.Size() && Onto(block, k)
  {
    if !Onto(block, k) {
      UniformIsEquivalent(t, s, u);
    } else {
      assert s != u;
      var after := block[s := k];
      forall b | 0 <= b < k + 1 ensures b in after {
        if b == k {
          assert after[s] == k;
        } else if b == block[s] {
          assert after[u] == b;
        } else {
          assert b in block;
          var i :| 0 <= i < |block| && block[i] == b;
          assert after[i] == b;
        }
      }
      OntoBounds(after, k + 1);
    }
  }

  lemma SplitKeepsRoom(t: Table, block: seq<nat>, k: nat, list: seq<nat>, after: seq<nat>, s: nat, u: nat)
    requires Blocks(t, block) && HasRoom(t, block, k) && Onto(block, k) && |after| == |block|
    requires forall q :: 0 <= q < |block| ==> after[q] == if q in list then k else block[q]
    requires s < |block| && (forall q :: q in list ==> q < |block| && block[q] == block[s])
    requires u < |block| && s in list && u !in list && block[u] == block[s]
    ensures HasRoom(t, after, k + 1)
  {
    forall b | 0 <= b < k + 1 ensures b in after {
      if b == k {
        assert after[s] == k;
      } else if b == block[s] {
        assert after[u] == b;
      } else {
        assert b in block;
        var i :| 0 <= i < |block| && block[i] == b;
        assert after[i] == b;
      }
    }
  }

  lemma IntoTellsApart(t: Table, block: seq<nat>, p: nat, x: nat, s: nat, u: nat)
    requires Blocks(t, block) && Sound(t, block) && x < t.letters && s < t.Size() && u < t.Size()
    requires Into(t, block, p, x, s) && !Into(t, block, p, x, u)
    ensures !t.Equivalent(s, u)
  {
    if t.Equivalent(s, u) {
      EquivalentStep(t, s, u, x);
    }
  }

  /** The bookkeeping of pending for a block j that has been split into j and k. */
  method UpdatePending(t: Table, table: ListTable, j: nat, k: nat, pending0: seq<Pair>, pending20: set<Pair>)
      returns (pending: seq<Pair>, pending2: set<Pair>)
    requires table.Shape() && table.m == t.letters && k < table.n && j < k
    requires IsQueued(t, pending0, pending20, k)
    ensures IsQueued(t, pending, pending2, k + 1) && pending20 <= pending2
    ensures forall c :: 0 <= c < t.letters ==> (j, c) in pending2 || (k, c) in pending2
    ensures forall c: nat :: (j, c) in pending20 ==> (k, c) in pending2
  {
    pending, pending2 := pending0, pending20;
    for c := 0 to t.letters
      invariant IsQueued(t, pending, pending2, k + 1) && pending20 <= pending2
      invariant forall d :: 0 <= d < c ==> (j, d) in pending2 || (k, d) in pending2
      invariant forall d :: 0 <= d < c && (j, d) in pending20 ==> (k, d) in pending2
      invariant forall d: nat :: d >= c && (j, d) in pending2 ==> (j, d) in pending20
    {
      var aj := table.active[j][c].size;
      var ak := table.active[k][c].size;
      if (j, c) !in pending2 && 0 < aj <= ak {
        pending2 := pending2 + {(j, c)};
        pending := pending + [(j, c)];
      } else {
        pending2 := pending2 + {(k, c)};
        pending := pending + [(k, c)];
      }
    }
  }

  /** What the round with splitter (p, x), begun with block0 and pend0, has done so far. */
  ghost predicate RoundState(t: Table, block0: seq<nat>, p: nat, x: nat, k0: nat, pend0: set<Pair>, child: map<nat,
      nat>, w: Work)
    requires Blocks(t, block0) && x < t.letters
  {
    && Moved(t, block0, p, x, child, k0, w.block) && k0 <= w.k
    && (forall j :: j in child ==> child[j] < w.k)
    && PendingUpdated(t, child, pend0, w.pending2)
  }

  lemma RoundStep(t: Table, block0: seq<nat>, p: nat, x: nat, k0: nat, pend0: set<Pair>, child: map<nat, nat>, w: Work,
      j: nat, list: seq<nat>, w2: Work)
    requires Blocks(t, block0) && x < t.letters && RoundState(t, block0, p, x, k0, pend0, child, w)
    requires j !in child && j < k0 && (forall e :: e in pend0 ==> e.1 < t.letters)
    requires forall s: nat :: s in list <==> s < |block0| && block0[s] == j && Into(t, block0, p, x, s)
    requires |w2.block| == |block0| && forall s :: 0 <= s < |block0| ==> w2.block[s] == if s in list then w.k
        else w.block[s]
    requires w2.k == w.k + 1 && w.pending2 <= w2.pending2
    requires forall c :: 0 <= c < t.letters ==> (j, c) in w2.pending2 || (w.k, c) in w2.pending2
    requires forall c: nat :: (j, c) in w.pending2 ==> (w.k, c) in w2.pending2
    ensures RoundState(t, block0, p, x, k0, pend0, child[j := w.k], w2)
  {
  }

  /** Everything that ties the working variables together between rounds, except for what is pending. */
  ghost predicate WorkOK(t: Table, table: ListTable, w: Work)
    reads table, table.lists, table.nodes
  {
    && IsActive(t, w.block, table, w.active2) && IsPartition(w.block, w.partition)
    && IsQueued(t, w.pending, w.pending2, w.k) && HasRoom(t, w.block, w.k)
  }

  /** splitblock[j] is all of block j, or there are states to show that the block must be split. */
  lemma ShorterMeansMissing(block: seq<nat>, partition: seq<seq<nat>>, hit: set<nat>, splitblock: seq<seq<nat>>,
      refine: seq<nat>, j: nat, current: seq<nat>)
    requires IsPartition(current, partition) && IsCollected(block, hit, splitblock, refine) && |current| == |block|
    requires j < |block| && forall s :: 0 <= s < |block| ==> (current[s] == j <==> block[s] == j)
    ensures |splitblock[j]| < |partition[j]| ==> exists u :: u in partition[j] && u !in splitblock[j]
    ensures |splitblock[j]| >= |partition[j]| ==> forall u :: u in partition[j] ==> u in splitblock[j]
  {
    var a, b := Elements(splitblock[j]), Elements(partition[j]);
    Cardinality(splitblock[j]);
    Cardinality(partition[j]);
    assert a <= b;
    if |splitblock[j]| < |partition[j]| {
      assert a != b;
      var u :| u in b && u !in a;
    } else {
      SubsetOfSize(a, b);
      assert forall u :: u in partition[j] ==> u in a;
    }
  }

  ghost function Elements(a: seq<nat>): set<nat> {
    set s | s in a
  }

  lemma {:induction false} Cardinality(a: seq<nat>)
    requires NoDuplicates(a)
    ensures |Elements(a)| == |a|
  {
    if a != [] {
      Cardinality(a[1..]);
      assert Elements(a) == {a[0]} + Elements(a[1..]);
      assert a[0] !in Elements(a[1..]) by {
        assert forall i :: 1 <= i < |a| ==> a[i] != a[0];
      }
    }
  }

  lemma SubsetOfSize(a: set<nat>, b: set<nat>)
    requires a <= b && |a| >= |b|
    ensures a == b
  {
    assert b == a + (b - a);
  }

  /** What splitting block j by list makes of the working variables. */
  ghost predicate IsSplit(t: Table, w: Work, j: nat, list: seq<nat>, w2: Work) {
    && |w2.block| == |w.block| && (forall s :: 0 <= s < |w.block| ==> w2.block[s] == if s in list then w.k
         else w.block[s])
    && w2.k == w.k + 1 && w.pending2 <= w2.pending2
    && (forall c :: 0 <= c < t.letters ==> (j, c) in w2.pending2 || (w.k, c) in w2.pending2)
    && (forall c: nat :: (j, c) in w.pending2 ==> (w.k, c) in w2.pending2)
  }

  method SplitAndQueue(t: Table, table: ListTable, j: nat, list: seq<nat>, w0: Work)
      returns (w: Work)
    requires IsActive(t, w0.block, table, w0.active2) && IsPartition(w0.block, w0.partition)
        && IsQueued(t, w0.pending, w0.pending2, w0.k)
    requires j < w0.k < t.Size() && NoDuplicates(list) && forall s :: s in list ==> s < t.Size() && w0.block[s] == j
    modifies table, table.lists, table.nodes
    ensures fresh(table.nodes - old(table.nodes))
    ensures IsActive(t, w.block, table, w.active2) && IsPartition(w.block, w.partition)
        && IsQueued(t, w.pending, w.pending2, w.k)
    ensures IsSplit(t, w0, j, list, w)
  {
    var block, partition, active2;
    block, partition, active2 := SplitBlock(t, table, list, j, w0.k, w0.block, w0.partition, w0.active2);
    var pending, pending2 := UpdatePending(t, table, j, w0.k, w0.pending, w0.pending2);
    w := Work(partition, block, active2, pending, pending2, w0.k + 1);
  }

  /** The part of the main loop that refines one block; there is always a free block number when one is needed. */
  method RefineBlock(t: Table, table: ListTable, j: nat, list: seq<nat>, w0: Work,
                     ghost block0: seq<nat>, ghost p: nat, ghost x: nat, ghost k0: nat, ghost pend0: set<Pair>,
                         ghost child0: map<nat, nat>, ghost u: nat)
      returns (w: Work)
    requires WorkOK(t, table, w0) && NoDuplicates(list)
    requires MustSplit(t, w0, block0, p, x, k0, pend0, child0, j, list, u)
    modifies table, table.lists, table.nodes
    ensures fresh(table.nodes - old(table.nodes))
    ensures WorkOK(t, table, w) && w.k == w0.k + 1
    ensures RoundState(t, block0, p, x, k0, pend0, child0[j := w0.k], w)
  {
    SplitIsPossible(t, w0, block0, p, x, k0, pend0, child0, j, list, u);
    w := SplitAndQueue(t, table, j, list, w0);
    SplitIsDone(t, w0, block0, p, x, k0, pend0, child0, j, list, u, w);
  }

  /** list holds the states of block j that the splitter moves, some but not all of them. */
  ghost predicate MustSplit(t: Table, w: Work, block0: seq<nat>, p: nat, x: nat, k0: nat, pend0: set<Pair>,
      child: map<nat, nat>, j: nat, list: seq<nat>, u: nat) {
    && Blocks(t, block0) && x < t.letters && Sound(t, block0) && Blocks(t, w.block) && HasRoom(t, w.block, w.k)
    && RoundState(t, block0, p, x, k0, pend0, child, w) && (forall e :: e in pend0 ==> e.1 < t.letters)
    && j < k0 && j !in child && list != []
    && (forall s: nat :: s in list <==> s < |block0| && block0[s] == j && Into(t, block0, p, x, s))
    && u < |block0| && block0[u] == j && u !in list
  }

  lemma SplitIsPossible(t: Table, w: Work, block0: seq<nat>, p: nat, x: nat, k0: nat, pend0: set<Pair>, child: map<nat,
      nat>, j: nat, list: seq<nat>, u: nat)
    requires MustSplit(t, w, block0, p, x, k0, pend0, child, j, list, u)
    ensures w.k < t.Size() && j < w.k && Onto(w.block, w.k)
    ensures forall s :: s in list ==> s < t.Size() && w.block[s] == j
  {
    var s0 := list[0];
    assert s0 in list;
    IntoTellsApart(t, block0, p, x, s0, u);
    RoomForSplit(t, w.block, w.k, s0, u);
  }

  lemma SplitIsDone(t: Table, w: Work, block0: seq<nat>, p: nat, x: nat, k0: nat, pend0: set<Pair>, child: map<nat,
      nat>, j: nat, list: seq<nat>, u: nat, w2: Work)
    requires MustSplit(t, w, block0, p, x, k0, pend0, child, j, list, u)
    requires IsSplit(t, w, j, list, w2)
    ensures HasRoom(t, w2.block, w2.k)
    ensures RoundState(t, block0, p, x, k0, pend0, child[j := w.k], w2)
  {
    SplitIsPossible(t, w, block0, p, x, k0, pend0, child, j, list, u);
    var s0 := list[0];
    assert s0 in list;
    SplitKeepsRoom(t, w.block, w.k, list, w2.block, s0, u);
    RoundStep(t, block0, p, x, k0, pend0, child, w, j, list, w2);
  }

  /** The blocks handled so far have been split, or lie in the splitter's preimage as a whole. */
  ghost predicate Handled(t: Table, block0: seq<nat>, p: nat, x: nat, child: map<nat, nat>, done: seq<nat>)
    requires Blocks(t, block0) && x < t.letters
  {
    && (forall j: nat :: j in child ==> j in done)
    && (forall j: nat, s: nat :: j in done && j !in child && s < |block0| && block0[s] == j ==>
         Into(t, block0, p, x, s))
  }

  lemma HandledOne(t: Table, block0: seq<nat>, p: nat, x: nat, k0: nat, pend0: set<Pair>, child: map<nat, nat>, w: Work,
                   hit: set<nat>, splitblock: seq<seq<nat>>, refine: seq<nat>, h: nat)
    requires Blocks(t, block0) && x < t.letters && RoundState(t, block0, p, x, k0, pend0, child, w)
    requires IsPartition(w.block, w.partition) && IsCollected(block0, hit, splitblock, refine)
    requires forall s: nat :: s in hit <==> s < |block0| && Into(t, block0, p, x, s)
    requires h < |refine| && Handled(t, block0, p, x, child, refine[..h])
    ensures refine[h] < k0 && refine[h] < |block0| && refine[h] !in child && splitblock[refine[h]] != []
    ensures refine[h] < |w.partition|
    ensures |splitblock[refine[h]]| >= |w.partition[refine[h]]| ==> Handled(t, block0, p, x, child, refine[..h + 1])
    ensures |splitblock[refine[h]]| < |w.partition[refine[h]]| ==>
      exists u :: u in w.partition[refine[h]] && u !in splitblock[refine[h]] && u < |block0| && block0[u] == refine[h]
    ensures Handled(t, block0, p, x, child[refine[h] := w.k], refine[..h + 1])
  {
    var j := refine[h];
    assert j in refine && splitblock[j] != [];
    assert splitblock[j][0] in splitblock[j];
    assert j !in refine[..h];
    assert forall i :: i in refine[..h + 1] <==> i in refine[..h] || i == j;
    assert forall s :: 0 <= s < |block0| ==> (w.block[s] == j <==> block0[s] == j);
    ShorterMeansMissing(block0, w.partition, hit, splitblock, refine, j, w.block);
    if |splitblock[j]| >= |w.partition[j]| {
      forall s: nat | s < |block0| && block0[s] == j ensures Into(t, block0, p, x, s) {
        assert s in w.partition[j];
        assert s in splitblock[j];
      }
    }
  }

  /** The round begun with w0 has handled the first h blocks of refine. */
  ghost predicate InRound(t: Table, w0: Work, p: nat, x: nat, hit: set<nat>, splitblock: seq<seq<nat>>,
      refine: seq<nat>, h: nat, child: map<nat, nat>, w: Work) {
    && Blocks(t, w0.block) && x < t.letters && Sound(t, w0.block) && (forall e :: e in w0.pending2 ==> e.1 < t.letters)
    && IsCollected(w0.block, hit, splitblock, refine)
    && (forall s: nat :: s in hit <==> s < |w0.block| && Into(t, w0.block, p, x, s))
    && h <= |refine| && RoundState(t, w0.block, p, x, w0.k, w0.pending2, child, w)
         && Handled(t, w0.block, p, x, child, refine[..h])
    && (w.k == w0.k ==> w.pending == w0.pending)
  }

  method RefineNext(t: Table, table: ListTable, splitblock: seq<seq<nat>>, refine: seq<nat>, h: nat, w1: Work,
                    ghost w0: Work, ghost p: nat, ghost x: nat, ghost hit: set<nat>, ghost child1: map<nat, nat>)
      returns (w: Work, ghost child: map<nat, nat>)
    requires WorkOK(t, table, w1) && h < |refine| && InRound(t, w0, p, x, hit, splitblock, refine, h, child1, w1)
    modifies table, table.lists, table.nodes
    ensures fresh(table.nodes - old(table.nodes))
    ensures WorkOK(t, table, w) && InRound(t, w0, p, x, hit, splitblock, refine, h + 1, child, w)
  {
    w, child := w1, child1;
    var j := refine[h];
    HandledOne(t, w0.block, p, x, w0.k, w0.pending2, child, w, hit, splitblock, refine, h);
    if |splitblock[j]| < |w.partition[j]| {
      ghost var u :| u in w.partition[j] && u !in splitblock[j] && u < |w0.block| && w0.block[u] == j;
      w := RefineBlock(t, table, j, splitblock[j], w, w0.block, p, x, w0.k, w0.pending2, child, u);
      child := child[j := w1.k];
    }
  }

  /** The loop over the blocks that the splitter touches. */
  method RefineBlocks(t: Table, table: ListTable, splitblock: seq<seq<nat>>, refine: seq<nat>, w0: Work,
                      ghost p: nat, ghost x: nat, ghost hit: set<nat>)
      returns (w: Work, ghost child: map<nat, nat>)
    requires WorkOK(t, table, w0) && InRound(t, w0, p, x, hit, splitblock, refine, 0, map[], w0)
    modifies table, table.lists, table.nodes
    ensures fresh(table.nodes - old(table.nodes))
    ensures WorkOK(t, table, w) && InRound(t, w0, p, x, hit, splitblock, refine, |refine|, child, w)
  {
    w, child := w0, map[];
    for h := 0 to |refine|
      invariant fresh(table.nodes - old(table.nodes))
      invariant WorkOK(t, table, w) && InRound(t, w0, p, x, hit, splitblock, refine, h, child, w)
    {
      w, child := RefineNext(t, table, splitblock, refine, h, w, w0, p, x, hit, child);
    }
  }

  lemma AllHandled(t: Table, block0: seq<nat>, p: nat, x: nat, child: map<nat, nat>, hit: set<nat>,
      splitblock: seq<seq<nat>>, refine: seq<nat>)
    requires Blocks(t, block0) && x < t.letters && IsCollected(block0, hit, splitblock, refine)
    requires forall s: nat :: s in hit <==> s < |block0| && Into(t, block0, p, x, s)
    requires Handled(t, block0, p, x, child, refine[..|refine|]) && forall s :: 0 <= s < |block0| ==>
        block0[s] < |block0|
    ensures AllSplit(t, block0, p, x, child)
  {
    assert refine[..|refine|] == refine;
    forall s: nat | s < |block0| && block0[s] !in child && Into(t, block0, p, x, s) ensures block0[s] in refine {
      assert s in splitblock[block0[s]];
    }
  }

  /** The invariant of the main loop: nothing equivalent has been separated, and what is pending suffices for the rest.
      */
  ghost predicate MainInvariant(t: Table, w: Work)
    requires Blocks(t, w.block)
  {
    Sound(t, w.block) && RespectsAcceptance(t, w.block) && PendingSuffice(t, w.block, w.pending2)
  }

  /** One turn of the main loop. */
  method Round(t: Table, reverse: seq<seq<seq<nat>>>, table: ListTable, w0: Work) returns (w: Work)
    requires WorkOK(t, table, w0) && MainInvariant(t, w0) && IsReverse(t, reverse) && w0.pending != []
    modifies table, table.lists, table.nodes
    ensures fresh(table.nodes - old(table.nodes))
    ensures WorkOK(t, table, w) && MainInvariant(t, w)
    ensures w.k > w0.k || (w.k == w0.k && |w.pending| < |w0.pending|)
  {
    var splitblock, refine;
    ghost var hit, child;
    splitblock, refine, hit := TakeSplitter(t, reverse, table, w0);
    var e := w0.pending[0];
    var w1 := w0.(pending := w0.pending[1..], pending2 := w0.pending2 - {e});
    RoundBegins(t, table, w0, w1);
    w, child := RefineBlocks(t, table, splitblock, refine, w1, e.0, e.1, hit);
    RoundEnds(t, w0, w1, e.0, e.1, hit, splitblock, refine, child, w);
  }

  /** Finds the states that the next splitter moves. */
  method TakeSplitter(t: Table, reverse: seq<seq<seq<nat>>>, table: ListTable, w0: Work)
      returns (splitblock: seq<seq<nat>>, refine: seq<nat>, ghost hit: set<nat>)
    requires WorkOK(t, table, w0) && MainInvariant(t, w0) && IsReverse(t, reverse) && w0.pending != []
    ensures w0.pending[0].1 < t.letters
    ensures var w1 := w0.(pending := w0.pending[1..], pending2 := w0.pending2 - {w0.pending[0]});
      InRound(t, w1, w0.pending[0].0, w0.pending[0].1, hit, splitblock, refine, 0, map[], w1)
  {
    SplitterReaches(t, table, w0);
    var p, x := w0.pending[0].0, w0.pending[0].1;
    splitblock, refine, hit := CollectSplit(t, reverse, table.active[p][x], w0.block, x);
    RoundCollected(t, w0, w0.(pending := w0.pending[1..], pending2 := w0.pending2 - {(p, x)}), p, x, hit, splitblock,
      refine);
  }

  lemma RoundBegins(t: Table, table: ListTable, w0: Work, w1: Work)
    requires WorkOK(t, table, w0) && w0.pending != []
    requires w1 == w0.(pending := w0.pending[1..], pending2 := w0.pending2 - {w0.pending[0]})
    ensures WorkOK(t, table, w1)
  {
    forall e | e in w1.pending ensures e in w0.pending {}
    forall e | e in w1.pending2 ensures e in w1.pending {
      assert e in w0.pending && e != w0.pending[0];
    }
  }

  lemma RoundCollected(t: Table, w0: Work, w1: Work, p: nat, x: nat, hit: set<nat>, splitblock: seq<seq<nat>>,
      refine: seq<nat>)
    requires Blocks(t, w0.block) && MainInvariant(t, w0) && IsQueued(t, w0.pending, w0.pending2, w0.k)
        && HasRoom(t, w0.block, w0.k)
    requires w0.pending != [] && w1 == w0.(pending := w0.pending[1..], pending2 := w0.pending2 - {(p, x)})
    requires x < t.letters && IsCollected(w0.block, hit, splitblock, refine)
    requires forall s: nat :: s in hit <==> s < |w0.block| && Into(t, w0.block, p, x, s)
    ensures InRound(t, w1, p, x, hit, splitblock, refine, 0, map[], w1)
  {
    assert forall e :: e in w1.pending2 ==> e in w0.pending;
  }

  lemma SplitterReaches(t: Table, table: ListTable, w: Work)
    requires WorkOK(t, table, w) && w.pending != []
    ensures var p, x := w.pending[0].0, w.pending[0].1;
      p < t.Size() && x < t.letters && table.active[p][x].Valid() &&
      (forall node :: node in table.active[p][x].nodes ==> node.q < t.Size()) &&
      (forall s: nat {:trigger Reached(t, x, table.active[p][x].nodes, s)} ::
         s < t.Size() ==> (Reached(t, x, table.active[p][x].nodes, s) <==> Into(t, w.block, p, x, s)))
    ensures forall s :: 0 <= s < |w.block| ==> w.block[s] < |w.block|
  {
    RoomIsBounded(t, w.block, w.k);
    assert w.pending[0] in w.pending;
    var p, x := w.pending[0].0, w.pending[0].1;
    forall node | node in table.active[p][x].nodes ensures node.q < t.Size() {
      ActiveNode(t, w.block, table, w.active2, p, x, node);
    }
    forall s: nat | s < t.Size() ensures Reached(t, x, table.active[p][x].nodes, s) <==> Into(t, w.block, p, x, s) {
      ReachedIsInto(t, w.block, table, w.active2, p, x, s);
    }
  }

  lemma RoundEnds(t: Table, w0: Work, w1: Work, p: nat, x: nat, hit: set<nat>, splitblock: seq<seq<nat>>,
      refine: seq<nat>, child: map<nat, nat>, w: Work)
    requires Blocks(t, w0.block) && MainInvariant(t, w0) && IsQueued(t, w0.pending, w0.pending2, w0.k) && x < t.letters
    requires w0.pending != [] && w1 == w0.(pending := w0.pending[1..], pending2 := w0.pending2 - {(p, x)})
    requires InRound(t, w1, p, x, hit, splitblock, refine, |refine|, child, w) && HasRoom(t, w0.block, w0.k)
    ensures |w.block| == |w0.block| && MainInvariant(t, w)
    ensures w.k > w0.k || (w.k == w0.k && |w.pending| < |w0.pending|)
  {
    RoomIsBounded(t, w0.block, w0.k);
    AllHandled(t, w0.block, p, x, child, hit, splitblock, refine);
    MovedIsSound(t, w0.block, p, x, child, w0.k, w.block);
    RoundKeepsInvariant(t, w0.block, p, x, child, w0.k, w.block, w0.pending2, w.pending2);
  }

  // ----- the initial partition -----

  /** Reverse edges of the first h states. */
  ghost predicate ReverseOf(t: Table, reverse: seq<seq<seq<nat>>>, h: nat, y: nat) {
    && t.Valid() && |reverse| == t.Size() && h <= t.Size()
    && (forall r :: 0 <= r < |reverse| ==> |reverse[r]| == t.letters)
    && (forall r, x, s: nat {:trigger s in reverse[r][x]} :: 0 <= r < |reverse| && 0 <= x < t.letters ==>
          (s in reverse[r][x] <==> s < t.Size() && (s < h || (s == h && x < y)) && t.next[s][x] == r))
  }

  /** Finds the accepting and rejecting blocks and the reverse edges. */
  method InitialPartition(t: Table) returns (partition: seq<seq<nat>>, block: seq<nat>, reverse: seq<seq<seq<nat>>>)
    requires t.Valid() && t.Size() >= 2
    ensures IsPartition(block, partition) && IsReverse(t, reverse) && |block| == t.Size()
    ensures forall s :: 0 <= s < |block| ==> block[s] == if t.accept[s] then 0 else 1
  {
    partition := seq(t.Size(), _ => []);
    block := [];
    reverse := seq(t.Size(), _ => seq(t.letters, _ => []));
    for q := 0 to t.Size()
      invariant |block| == q && |partition| == t.Size()
      invariant forall b, s: nat {:trigger s in partition[b]} :: 0 <= b < |partition| ==>
          (s in partition[b] <==> s < q && block[s] == b)
      invariant forall b :: 0 <= b < |partition| ==> NoDuplicates(partition[b])
      invariant forall s :: 0 <= s < q ==> block[s] == if t.accept[s] then 0 else 1
      invariant ReverseOf(t, reverse, q, 0)
    {
      var j := if t.accept[q] then 0 else 1;
      assert q !in partition[j];
      partition := partition[j := partition[j] + [q]];
      block := block + [j];
      for x := 0 to t.letters
        invariant ReverseOf(t, reverse, q, x)
      {
        var p := t.next[q][x];
        reverse := reverse[p := reverse[p][x := reverse[p][x] + [q]]];
      }
    }
  }

  /** The entries of the active lists made so far: all of blocks below j, of block j the letters below x, of x the
      states seen. */
  ghost predicate Placed(t: Table, block: seq<nat>, table: ListTable, active2: map<Cell, StateListNode>, j: nat, x: nat,
      seen: seq<nat>)
    reads table, table.lists, table.nodes
  {
    && Blocks(t, block) && table.n == t.Size() && table.m == t.letters && table.SoundLists()
    && Consistent(table.n, table.m, table.Contents(), active2)
    && PlacedCells(t, block, active2, j, x, seen)
  }

  ghost predicate PlacedCells(t: Table, block: seq<nat>, active2: map<Cell, StateListNode>, j: nat, x: nat,
      seen: seq<nat>)
    requires Blocks(t, block)
  {
    && (forall p: Cell {:trigger p in active2} :: p in active2 <==>
          p.0 < t.Size() && p.1 < t.letters && IsTarget(t, p.0, p.1) &&
          (block[p.0] < j || (block[p.0] == j && (p.1 < x || (p.1 == x && p.0 in seen)))))
    && (forall p: Cell {:trigger active2[p]} :: p in active2 ==> active2[p].sl.home.0 == block[p.0])
  }

  method FillList(t: Table, reverse: seq<seq<seq<nat>>>, table: ListTable, block: seq<nat>, list: seq<nat>, j: nat,
      x: nat,
                  active20: map<Cell, StateListNode>)
      returns (active2: map<Cell, StateListNode>)
    requires IsReverse(t, reverse) && Placed(t, block, table, active20, j, x, []) && j < t.Size() && x < t.letters
    requires NoDuplicates(list) && forall s: nat :: s in list <==> s < |block| && block[s] == j
    modifies table, table.lists, table.nodes
    ensures fresh(table.nodes - old(table.nodes))
    ensures Placed(t, block, table, active2, j, x + 1, [])
  {
    active2 := active20;
    for i := 0 to |list|
      invariant fresh(table.nodes - old(table.nodes))
      invariant Placed(t, block, table, active2, j, x, list[..i])
    {
      var q := list[i];
      assert q in list && q !in list[..i];
      TargetsHaveReverse(t, reverse, q, x);
      ghost var before := active2;
      if reverse[q][x] != [] {
        assert (q, x) !in active2;
        var node := table.PutOn(q, j, x, active2);
        active2 := active2[(q, x) := node];
      }
      OneMorePlaced(t, block, before, active2, j, x, list, i);
    }
    assert list[..|list|] == list;
  }

  lemma TargetsHaveReverse(t: Table, reverse: seq<seq<seq<nat>>>, q: nat, x: nat)
    requires IsReverse(t, reverse) && q < t.Size() && x < t.letters
    ensures reverse[q][x] != [] <==> IsTarget(t, q, x)
  {
    if reverse[q][x] != [] {
      assert reverse[q][x][0] in reverse[q][x];
    }
    if IsTarget(t, q, x) {
      var s :| 0 <= s < t.Size() && t.next[s][x] == q;
      assert s in reverse[q][x];
    }
  }

  lemma OneMorePlaced(t: Table, block: seq<nat>, before: map<Cell, StateListNode>, after: map<Cell, StateListNode>,
      j: nat, x: nat, list: seq<nat>, i: nat)
    requires Blocks(t, block) && i < |list| && x < t.letters && list[i] < t.Size() && block[list[i]] == j
    requires PlacedCells(t, block, before, j, x, list[..i])
    requires if IsTarget(t, list[i], x) then (list[i], x) in after && after[(list[i], x)].sl.home.0 == j
        && after == before[(list[i], x) := after[(list[i], x)]]
             else after == before
    ensures PlacedCells(t, block, after, j, x, list[..i + 1])
  {
  }

  method FillRow(t: Table, reverse: seq<seq<seq<nat>>>, table: ListTable, block: seq<nat>, list: seq<nat>, j: nat,
      active20: map<Cell, StateListNode>)
      returns (active2: map<Cell, StateListNode>)
    requires IsReverse(t, reverse) && Placed(t, block, table, active20, j, 0, []) && j < t.Size()
    requires NoDuplicates(list) && forall s: nat :: s in list <==> s < |block| && block[s] == j
    modifies table, table.lists, table.nodes
    ensures fresh(table.nodes - old(table.nodes))
    ensures Placed(t, block, table, active2, j + 1, 0, [])
  {
    active2 := active20;
    for x := 0 to t.letters
      invariant fresh(table.nodes - old(table.nodes))
      invariant Placed(t, block, table, active2, j, x, [])
    {
      active2 := FillList(t, reverse, table, block, list, j, x, active2);
    }
  }

  /** Initializes the active lists of the first two blocks. */
  method FillActive(t: Table, reverse: seq<seq<seq<nat>>>, block: seq<nat>, partition: seq<seq<nat>>)
      returns (table: ListTable, active2: map<Cell, StateListNode>)
    requires IsReverse(t, reverse) && Blocks(t, block) && IsPartition(block, partition) && t.Size() >= 2
    requires forall s :: 0 <= s < |block| ==> block[s] < 2
    ensures fresh(table) && fresh(table.lists) && fresh(table.nodes)
    ensures IsActive(t, block, table, active2)
  {
    table := NewTable(t.Size(), t.letters);
    active2 := map[];
    for j := 0 to 2
      invariant fresh(table) && fresh(table.lists) && fresh(table.nodes)
      invariant Placed(t, block, table, active2, j, 0, [])
    {
      active2 := FillRow(t, reverse, table, block, partition[j], j, active2);
    }
  }

  /** For every letter the block with the shorter active list is pending. */
  method InitialPending(t: Table, table: ListTable) returns (pending: seq<Pair>, pending2: set<Pair>)
    requires table.Shape() && table.m == t.letters && table.n >= 2
    ensures IsQueued(t, pending, pending2, 2)
    ensures forall x :: 0 <= x < t.letters ==> (0, x) in pending2 || (1, x) in pending2
  {
    pending, pending2 := [], {};
    for x := 0 to t.letters
      invariant IsQueued(t, pending, pending2, 2)
      invariant forall y :: 0 <= y < x ==> (0, y) in pending2 || (1, y) in pending2
    {
      var a0 := table.active[0][x].size;
      var a1 := table.active[1][x].size;
      var j := if a0 <= a1 then 0 else 1;
      pending := pending + [(j, x)];
      pending2 := pending2 + {(j, x)};
    }
  }

  /** Hopcroft's refinement: it ends, and its blocks are exactly the classes of states that no word tells apart. */
  method Refine(t: Table) returns (block: seq<nat>, partition: seq<seq<nat>>, k: nat)
    requires t.Valid() && t.Size() >= 2
    ensures |block| == t.Size() && IsPartition(block, partition) && 2 <= k <= t.Size()
    ensures forall s :: 0 <= s < |block| ==> block[s] < k
    ensures forall s, u :: 0 <= s < |block| && 0 <= u < |block| ==> (block[s] == block[u] <==> t.Equivalent(s, u))
  {
    var reverse;
    partition, block, reverse := InitialPartition(t);
    var table, active2 := FillActive(t, reverse, block, partition);
    var pending, pending2 := InitialPending(t, table);
    InitialInvariant(t, block, pending2);
    InitialRoom(t, block);
    var w := Work(partition, block, active2, pending, pending2, 2);
    while w.pending != []
      invariant fresh(table) && fresh(table.lists) && fresh(table.nodes)
      invariant WorkOK(t, table, w) && MainInvariant(t, w)
      decreases t.Size() - w.k, |w.pending|
    {
      ghost var w0 := w;
      w := Round(t, reverse, table, w);
      RoomIsBounded(t, w.block, w.k);
    }
    RoomIsBounded(t, w.block, w.k);
    assert w.pending2 == {};
    NothingPending(t, w.block);
    block, partition, k := w.block, w.partition, w.k;
  }

  lemma InitialRoom(t: Table, block: seq<nat>)
    requires Blocks(t, block) && t.Size() >= 2 && forall s :: 0 <= s < |block| ==> block[s] == if t.accept[s] then 0
        else 1
    ensures HasRoom(t, block, 2)
  {
    if q, p :| 0 <= q < t.Size() && 0 <= p < t.Size() && t.accept[q] != t.accept[p] {
      assert block[q] in block && block[p] in block;
    }
  }
}
