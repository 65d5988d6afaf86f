/** The doubly linked lists of MinimizationOperations, and the table of active lists that Hopcroft's algorithm keeps in
    them. */
module StateLists {

  type Cell = (nat, nat)

  class StateList {
    var size: nat
    var first: StateListNode?
    var last: StateListNode?
    ghost var nodes: seq<StateListNode>  // from first to last
    ghost const home: Cell               // its place in the table of lists

    ghost predicate Valid()
      reads this, nodes
    {
      && size == |nodes|
      && first == (if nodes == [] then null else nodes[0])
      && last == (if nodes == [] then null else nodes[|nodes| - 1])
      && (forall node :: node in nodes ==> node.sl == this)
      && (forall i :: 0 <= i < |nodes| ==> Linked(i))
      && (forall i, j :: 0 <= i < j < |nodes| ==> nodes[i] != nodes[j])
    }

    ghost predicate Linked(i: nat)
      requires i < |nodes|
      reads this, nodes
    {
      && nodes[i].next == (if i + 1 < |nodes| then nodes[i + 1] else null)
      && nodes[i].prev == (if i > 0 then nodes[i - 1] else null)
    }

    constructor (ghost home: Cell)
      ensures Valid() && nodes == [] && this.home == home
    {
      size, first, last, nodes := 0, null, null, [];
      this.home := home;
    }

    method Add(q: nat) returns (node: StateListNode)
      requires Valid()
      modifies this, nodes
      ensures Valid() && fresh(node) && node.q == q && node.sl == this && nodes == old(nodes) + [node]
    {
      node := new StateListNode(q, this);
    }
  }

  class StateListNode {
    const q: nat
    const sl: StateList
    var next: StateListNode?
    var prev: StateListNode?

    constructor (q: nat, sl: StateList)
      requires sl.Valid()
      modifies sl, sl.nodes
      ensures this.q == q && this.sl == sl
      ensures sl.Valid() && sl.nodes == old(sl.nodes) + [this]
    {
      this.q := q;
      this.sl := sl;
      next, prev := null, null;
      new;
      ghost var before := sl.nodes;
      sl.size := sl.size + 1;
      if sl.size == 1 {
        sl.first := this;
        sl.last := this;
      } else {
        sl.last.next := this;
        prev := sl.last;
        sl.last := this;
      }
      sl.nodes := sl.nodes + [this];
      forall i | 0 <= i < |sl.nodes| ensures sl.Linked(i) {
        if i < |before| {
          assert sl.nodes[i] == before[i] && before[i] in before;
          assert old(sl.Linked(i));
        }
      }
    }

    method Remove() returns (ghost i: nat)
      requires sl.Valid() && this in sl.nodes
      modifies sl, sl.nodes
      ensures sl.Valid()
      ensures i < |old(sl.nodes)| && old(sl.nodes)[i] == this && sl.nodes == old(sl.nodes)[..i] + old(sl.nodes)[i + 1..]
      ensures forall node :: node in sl.nodes <==> node in old(sl.nodes) && node != this
    {
      ghost var before := sl.nodes;
      i :| 0 <= i < |before| && before[i] == this;
      assert sl.Linked(i);
      assert i > 0 ==> sl.Linked(i - 1);
      assert i + 1 < |before| ==> sl.Linked(i + 1);
      sl.size := sl.size - 1;
      if sl.first == this {
        sl.first := next;
      } else {
        prev.next := next;
      }
      if sl.last == this {
        sl.last := prev;
      } else {
        next.prev := prev;
      }
      sl.nodes := before[..i] + before[i + 1..];
      forall j | 0 <= j < |sl.nodes| ensures sl.Linked(j) {
        var o := if j < i then j else j + 1;
        if j < i {
          assert sl.nodes[j] == before[o];
        } else {
          assert sl.nodes[j] == before[i + 1..][j - i] == before[o];
        }
        assert old(sl.Linked(o));
      }
    }
  }

  /** The nodes on the lists (content) are exactly the nodes that the table active2 knows by state and letter. */
  ghost predicate Consistent(n: nat, m: nat, content: map<Cell, seq<StateListNode>>, active2: map<Cell,
      StateListNode>) {
    && (forall c: Cell {:trigger c in content} :: c in content <==> c.0 < n && c.1 < m)
    && (forall p: Cell {:trigger active2[p]} :: p in active2 ==>
          p.0 < n && p.1 < m && active2[p].q == p.0 && active2[p].sl.home.0 < n && active2[p].sl.home.1 == p.1 &&
          active2[p].sl.home in content && active2[p] in content[active2[p].sl.home])
    && (forall c, node {:trigger node in content[c]} :: c in content && node in content[c] ==>
          node.sl.home == c && (node.q, c.1) in active2 && active2[(node.q, c.1)] == node)
  }

  lemma PlaceConsistent(n: nat, m: nat, content: map<Cell, seq<StateListNode>>, active2: map<Cell, StateListNode>,
      k: nat, x: nat, node: StateListNode)
    requires Consistent(n, m, content, active2) && (node.q, x) !in active2 && node.q < n && x < m && k < n
        && node.sl.home == (k, x)
    ensures Consistent(n, m, content[(k, x) := content[(k, x)] + [node]], active2[(node.q, x) := node])
  {
  }

  lemma UnlinkConsistent(n: nat, m: nat, content: map<Cell, seq<StateListNode>>, active2: map<Cell, StateListNode>,
      p: Cell, rest: seq<StateListNode>)
    requires Consistent(n, m, content, active2) && p in active2
    requires forall node :: node in rest <==> node in content[active2[p].sl.home] && node != active2[p]
    ensures Consistent(n, m, content[active2[p].sl.home := rest], active2 - {p})
  {
  }

  lemma Replace<K, V>(m: map<K, V>, k: K, v: V)
    ensures (m - {k})[k := v] == m[k := v]
  {
  }

  /** The table active of MinimizationOperations: one list for each block and letter. */
  class ListTable {
    const n: nat
    const m: nat
    const active: seq<seq<StateList>>
    ghost const lists: set<StateList>
    ghost var nodes: set<StateListNode>  // every node that is or was on a list

    constructor (n: nat, m: nat, active: seq<seq<StateList>>, ghost lists: set<StateList>)
      ensures this.n == n && this.m == m && this.active == active && this.lists == lists && nodes == {}
    {
      this.n, this.m, this.active, this.lists, nodes := n, m, active, lists, {};
    }

    ghost predicate Shape() {
      && |active| == n
      && (forall b :: 0 <= b < n ==> |active[b]| == m)
      && (forall b, x {:trigger active[b][x]} :: 0 <= b < n && 0 <= x < m ==>
           active[b][x] in lists && active[b][x].home == (b, x))
    }

    /** The nodes of every list. */
    ghost function Contents(): map<Cell, seq<StateListNode>>
      requires Shape()
      reads lists
    {
      map b: nat, x: nat | b < n && x < m :: (b, x) := List(b, x).nodes
    }

    function List(b: nat, x: nat): StateList
      requires Shape() && b < n && x < m
      ensures List(b, x) in lists
    {
      active[b][x]
    }

    /** All lists are sound and no two share a node. */
    ghost predicate SoundLists()
      reads this, lists, nodes
    {
      && Shape()
      && (forall b, x {:trigger active[b][x]} :: 0 <= b < n && 0 <= x < m ==>
            (forall i :: 0 <= i < |active[b][x].nodes| ==> active[b][x].nodes[i] in nodes) && active[b][x].Valid())
    }

    /** Unlinks a node from the list of block j; no other list notices. */
    method Unlink(sn: StateListNode, j: nat, x: nat)
      requires SoundLists() && j < n && x < m && sn in active[j][x].nodes
      modifies active[j][x], active[j][x].nodes
      ensures SoundLists()
      ensures forall b, y {:trigger active[b][y]} :: 0 <= b < n && 0 <= y < m && !(b == j && y == x) ==>
          active[b][y].nodes == old(active[b][y].nodes)
      ensures forall node :: node in active[j][x].nodes <==> node in old(active[j][x].nodes) && node != sn
    {
      forall b, y | 0 <= b < n && 0 <= y < m && !(b == j && y == x)
        ensures active[b][y] != active[j][x]
        ensures forall node :: node in active[b][y].nodes ==> node !in active[j][x].nodes
      {
      }
      ghost var i := sn.Remove();
      forall b, y | 0 <= b < n && 0 <= y < m
        ensures active[b][y].Valid()
        ensures forall node :: node in active[b][y].nodes ==> node in nodes
      {
        if !(b == j && y == x) {
          assert active[b][y].nodes == old(active[b][y].nodes);
          forall i | 0 <= i < |active[b][y].nodes| ensures active[b][y].Linked(i) {
            assert active[b][y].nodes[i] in active[b][y].nodes;
            assert old(active[b][y].Linked(i));
          }
        }
      }
    }
  
    /** Appends a node for q to the list of block k; no other list notices. */
    method Append(q: nat, k: nat, x: nat) returns (node: StateListNode)
      requires SoundLists() && k < n && x < m
      modifies this, active[k][x], active[k][x].nodes
      ensures SoundLists() && fresh(node) && node.q == q && nodes == old(nodes) + {node}
      ensures forall b, y {:trigger active[b][y]} :: 0 <= b < n && 0 <= y < m && !(b == k && y == x) ==>
          active[b][y].nodes == old(active[b][y].nodes)
      ensures active[k][x].nodes == old(active[k][x].nodes) + [node] && node.sl == active[k][x]
    {
      forall b, y | 0 <= b < n && 0 <= y < m && !(b == k && y == x)
        ensures active[b][y] != active[k][x]
        ensures forall node :: node in active[b][y].nodes ==> node !in active[k][x].nodes
      {
      }
      node := active[k][x].Add(q);
      nodes := nodes + {node};
      forall b, y | 0 <= b < n && 0 <= y < m
        ensures active[b][y].Valid()
        ensures forall o :: o in active[b][y].nodes ==> o in nodes
      {
        if !(b == k && y == x) {
          assert active[b][y].nodes == old(active[b][y].nodes);
          forall i | 0 <= i < |active[b][y].nodes| ensures active[b][y].Linked(i) {
            assert active[b][y].nodes[i] in active[b][y].nodes;
            assert old(active[b][y].Linked(i));
          }
        }
      }
    }

    lemma ContentsAre(c: map<Cell, seq<StateListNode>>)
      requires Shape() && forall b: nat, y: nat :: (b, y) in c <==> b < n && y < m
      requires forall b, y {:trigger active[b][y]} :: 0 <= b < n && 0 <= y < m ==> active[b][y].nodes == c[(b, y)]
      ensures Contents() == c
    {
      forall p: Cell ensures p in Contents() <==> p in c {
        assert p == (p.0, p.1);
      }
      forall p: Cell | p in c ensures Contents()[p] == c[p] {
        assert p == (p.0, p.1) && active[p.0][p.1].nodes == c[p];
      }
    }

    /** Takes a node off the list of block j. */
    method TakeOff(sn: StateListNode, j: nat, x: nat, ghost active2: map<Cell, StateListNode>)
      requires SoundLists() && j < n && x < m
      requires Consistent(n, m, Contents(), active2) && sn in active[j][x].nodes
      modifies active[j][x], active[j][x].nodes
      ensures SoundLists()
      ensures Consistent(n, m, Contents(), active2 - {(sn.q, x)})
    {
      ghost var before := Contents();
      assert sn in before[(j, x)];
      Unlink(sn, j, x);
      ContentsAre(before[(j, x) := active[j][x].nodes]);
      UnlinkConsistent(n, m, before, active2, (sn.q, x), active[j][x].nodes);
    }

    /** Puts q, which must not be on a list for letter x, on the list of block k. */
    method PutOn(q: nat, k: nat, x: nat, ghost active2: map<Cell, StateListNode>) returns (node: StateListNode)
      requires SoundLists() && q < n && k < n && x < m
      requires Consistent(n, m, Contents(), active2) && (q, x) !in active2
      modifies this, active[k][x], active[k][x].nodes
      ensures SoundLists() && fresh(node) && nodes == old(nodes) + {node}
      ensures node.sl.home == (k, x)
      ensures Consistent(n, m, Contents(), active2[(q, x) := node])
    {
      ghost var before := Contents();
      node := Append(q, k, x);
      ContentsAre(before[(k, x) := before[(k, x)] + [node]]);
      PlaceConsistent(n, m, before, active2, k, x, node);
    }

    /** Moves a node's state from the list of block j to a new node on the list of block k. */
    method Transfer(sn: StateListNode, j: nat, k: nat, x: nat, ghost active2: map<Cell, StateListNode>)
        returns (node: StateListNode)
      requires SoundLists() && j < n && k < n && x < m && j != k && sn.q < n
      requires Consistent(n, m, Contents(), active2) && sn in active[j][x].nodes
      modifies this, lists, nodes
      ensures SoundLists() && fresh(node) && nodes == old(nodes) + {node}
      ensures node.sl.home == (k, x)
      ensures Consistent(n, m, Contents(), active2[(sn.q, x) := node])
    {
      TakeOff(sn, j, x, active2);
      assert forall i :: 0 <= i < |active[k][x].nodes| ==> active[k][x].nodes[i] in nodes;
      node := PutOn(sn.q, k, x, active2 - {(sn.q, x)});
      Replace(active2, (sn.q, x), node);
    }
  }

  method NewRow(b: nat, m: nat) returns (row: seq<StateList>, ghost lists: set<StateList>)
    ensures |row| == m && fresh(lists)
    ensures forall x {:trigger row[x]} :: 0 <= x < m ==> row[x] in lists && IsEmptyAt(row[x], b, x)
    ensures forall list :: list in lists ==> list.nodes == []
  {
    row, lists := [], {};
    for x := 0 to m
      invariant |row| == x && fresh(lists)
      invariant forall y {:trigger row[y]} :: 0 <= y < x ==> row[y] in lists && IsEmptyAt(row[y], b, y)
      invariant forall list :: list in lists ==> list.nodes == []
    {
      var list := new StateList((b, x));
      row := row + [list];
      lists := lists + {list};
    }
  }

  /** A table of n by m empty lists. */
  method NewTable(n: nat, m: nat) returns (table: ListTable)
    ensures fresh(table) && fresh(table.lists) && table.nodes == {}
    ensures table.n == n && table.m == m && table.SoundLists()
    ensures Consistent(n, m, table.Contents(), map[])
  {
    var active: seq<seq<StateList>> := [];
    ghost var lists: set<StateList> := {};
    for b := 0 to n
      invariant |active| == b && fresh(lists)
      invariant forall c :: 0 <= c < b ==> |active[c]| == m
      invariant forall c, x {:trigger active[c][x]} :: 0 <= c < b && 0 <= x < m ==>
          active[c][x] in lists && IsEmptyAt(active[c][x], c, x)
    {
      var row;
      ghost var more;
      row, more := NewRow(b, m);
      active := active + [row];
      lists := lists + more;
    }
    table := new ListTable(n, m, active, lists);
    assert forall b, x {:trigger active[b][x]} :: 0 <= b < n && 0 <= x < m ==> IsEmptyAt(active[b][x], b, x);
  }

  ghost predicate IsEmptyAt(list: StateList, b: nat, x: nat)
    reads list, list.nodes
  {
    list.Valid() && list.nodes == [] && list.home == (b, x)
  }
}
