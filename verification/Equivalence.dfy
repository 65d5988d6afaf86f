/** Complete deterministic automata as transition tables, and what partition refinement does to them. */
module Equivalence {

  type Pair = (nat, nat)

  /** next[q][x] is the state reached from q by letter x; letters stand for classes of characters. */
  datatype Table = Table(letters: nat, next: seq<seq<nat>>, accept: seq<bool>) {
    function Size(): nat {
      |next|
    }

    predicate Valid() {
      && |accept| == |next|
      && (forall q :: 0 <= q < |next| ==> |next[q]| == letters)
      && (forall q, x {:trigger next[q][x]} :: 0 <= q < |next| && 0 <= x < letters ==> next[q][x] < |next|)
    }

    ghost predicate Accepts(q: nat, u: seq<nat>)
      requires Valid() && q < Size()
      decreases |u|
    {
      if u == [] then accept[q]
      else u[0] < letters && Accepts(next[q][u[0]], u[1..])
    }

    /** No word of letters tells q and p apart. */
    ghost predicate Equivalent(q: nat, p: nat)
      requires Valid() && q < Size() && p < Size()
    {
      forall u :: Accepts(q, u) == Accepts(p, u)
    }
  }

  lemma EquivalentStep(t: Table, q: nat, p: nat, x: nat)
    requires t.Valid() && q < t.Size() && p < t.Size() && x < t.letters && t.Equivalent(q, p)
    ensures t.Equivalent(t.next[q][x], t.next[p][x])
  {
    forall u ensures t.Accepts(t.next[q][x], u) == t.Accepts(t.next[p][x], u) {
      assert t.Accepts(q, [x] + u) == t.Accepts(p, [x] + u);
      assert ([x] + u)[1..] == u;
    }
  }

  /** A numbering of the states by blocks. */
  ghost predicate Blocks(t: Table, block: seq<nat>) {
    t.Valid() && |block| == t.Size()
  }

  /** The partition separates only what must be separated. */
  ghost predicate Sound(t: Table, block: seq<nat>)
    requires Blocks(t, block)
  {
    forall s, u :: 0 <= s < |block| && 0 <= u < |block| && t.Equivalent(s, u) ==> block[s] == block[u]
  }

  ghost predicate RespectsAcceptance(t: Table, block: seq<nat>)
    requires Blocks(t, block)
  {
    forall s, u :: 0 <= s < |block| && 0 <= u < |block| && block[s] == block[u] ==> t.accept[s] == t.accept[u]
  }

  /** s and u go by letter x into the same ones of the blocks that are pending for x. */
  ghost predicate AgreeOn(t: Table, block: seq<nat>, pend: set<Pair>, s: nat, u: nat, x: nat)
    requires Blocks(t, block) && s < |block| && u < |block| && x < t.letters
  {
    forall b :: (b, x) in pend ==> (block[t.next[s][x]] == b <==> block[t.next[u][x]] == b)
  }

  /** Two states of a block that agree on all pending splitters go into the same block:
      the pending splitters are enough to make the partition stable. */
  ghost predicate PendingSuffice(t: Table, block: seq<nat>, pend: set<Pair>)
    requires Blocks(t, block)
  {
    forall s, u, x {:trigger AgreeOn(t, block, pend, s, u, x)} ::
      0 <= s < |block| && 0 <= u < |block| && 0 <= x < t.letters && block[s] == block[u]
        && AgreeOn(t, block, pend, s, u, x)
      ==> block[t.next[s][x]] == block[t.next[u][x]]
  }

  lemma {:induction false} StableStatesAgree(t: Table, block: seq<nat>, s: nat, u: nat, w: seq<nat>)
    requires Blocks(t, block) && RespectsAcceptance(t, block)
    requires forall s, u, x :: 0 <= s < |block| && 0 <= u < |block| && 0 <= x < t.letters && block[s] == block[u]
               ==> block[t.next[s][x]] == block[t.next[u][x]]
    requires s < |block| && u < |block| && block[s] == block[u]
    ensures t.Accepts(s, w) == t.Accepts(u, w)
    decreases |w|
  {
    if w != [] && w[0] < t.letters {
      StableStatesAgree(t, block, t.next[s][w[0]], t.next[u][w[0]], w[1..]);
    }
  }

  /** When nothing is pending any more, the blocks are exactly the classes of equivalent states. */
  lemma NothingPending(t: Table, block: seq<nat>)
    requires Blocks(t, block) && Sound(t, block) && RespectsAcceptance(t, block) && PendingSuffice(t, block, {})
    ensures forall s, u :: 0 <= s < |block| && 0 <= u < |block| ==> (block[s] == block[u] <==> t.Equivalent(s, u))
  {
    forall s, u, x | 0 <= s < |block| && 0 <= u < |block| && 0 <= x < t.letters && block[s] == block[u]
      ensures block[t.next[s][x]] == block[t.next[u][x]]
    {
      assert AgreeOn(t, block, {}, s, u, x);
    }
    forall s, u | 0 <= s < |block| && 0 <= u < |block| && block[s] == block[u] ensures t.Equivalent(s, u) {
      forall w ensures t.Accepts(s, w) == t.Accepts(u, w) {
        StableStatesAgree(t, block, s, u, w);
      }
    }
  }

  // ----- one round of refinement by the splitter (p, x) -----

  /** The states that go by x into block p. */
  predicate Into(t: Table, block: seq<nat>, p: nat, x: nat, s: nat)
    requires Blocks(t, block) && s < |block| && x < t.letters
  {
    block[t.next[s][x]] == p
  }

  /** block2 moves the states going by x into p out of each block with a child, and into that child. */
  ghost predicate Moved(t: Table, block: seq<nat>, p: nat, x: nat, child: map<nat, nat>, k: nat, block2: seq<nat>)
    requires Blocks(t, block) && x < t.letters
  {
    && |block2| == |block|
    && (forall s :: 0 <= s < |block| ==> block[s] < k)
    && (forall j :: j in child ==> child[j] >= k)
    && (forall i, j :: i in child && j in child && child[i] == child[j] ==> i == j)
    && (forall s :: 0 <= s < |block| ==> block2[s] == if block[s] in child && Into(t, block, p, x, s)
         then child[block[s]] else block[s])
  }

  lemma MovedIsSound(t: Table, block: seq<nat>, p: nat, x: nat, child: map<nat, nat>, k: nat, block2: seq<nat>)
    requires Blocks(t, block) && x < t.letters && Sound(t, block) && Moved(t, block, p, x, child, k, block2)
    ensures Sound(t, block2)
    ensures RespectsAcceptance(t, block) ==> RespectsAcceptance(t, block2)
  {
    forall s, u | 0 <= s < |block| && 0 <= u < |block| && t.Equivalent(s, u) ensures block2[s] == block2[u] {
      EquivalentStep(t, s, u, x);
    }
  }

  /** The blocks left whole lie on one side of the splitter. */
  ghost predicate AllSplit(t: Table, block: seq<nat>, p: nat, x: nat, child: map<nat, nat>)
    requires Blocks(t, block) && x < t.letters
  {
    forall s, u :: 0 <= s < |block| && 0 <= u < |block| && block[s] == block[u] && block[s] !in child
      ==> (Into(t, block, p, x, s) <==> Into(t, block, p, x, u))
  }

  /** How the pending set must change when blocks get children: both halves of what was pending, at least one half of
      the rest. */
  ghost predicate PendingUpdated(t: Table, child: map<nat, nat>, pend: set<Pair>, pend2: set<Pair>) {
    && pend <= pend2
    && (forall j, y :: j in child && (j, y) in pend ==> (child[j], y) in pend2)
    && (forall j, y :: j in child && 0 <= y < t.letters ==> (j, y) in pend2 || (child[j], y) in pend2)
  }

  lemma RoundAgrees(t: Table, block: seq<nat>, p: nat, x: nat, child: map<nat, nat>, k: nat, block2: seq<nat>,
      pend: set<Pair>, pend2: set<Pair>, s: nat, u: nat, y: nat)
    requires Blocks(t, block) && x < t.letters && Moved(t, block, p, x, child, k, block2)
        && AllSplit(t, block, p, x, child)
    requires PendingUpdated(t, child, pend - {(p, x)}, pend2) && (forall b, z :: (b, z) in pend ==> b < k)
    requires s < |block| && u < |block| && y < t.letters && block2[s] == block2[u]
    requires AgreeOn(t, block2, pend2, s, u, y)
    ensures block[s] == block[u] && AgreeOn(t, block, pend, s, u, y)
  {
    forall b | (b, y) in pend ensures block[t.next[s][y]] == b <==> block[t.next[u][y]] == b {
      if (b, y) == (p, x) {
        assert Into(t, block, p, x, s) <==> Into(t, block, p, x, u);
      } else {
        assert (b, y) in pend2;
        if b in child {
          assert (child[b], y) in pend2;
        }
      }
    }
  }

  /** The invariant of the main loop survives a round. */
  lemma RoundKeepsInvariant(t: Table, block: seq<nat>, p: nat, x: nat, child: map<nat, nat>, k: nat, block2: seq<nat>,
      pend: set<Pair>, pend2: set<Pair>)
    requires Blocks(t, block) && x < t.letters && Moved(t, block, p, x, child, k, block2)
        && AllSplit(t, block, p, x, child)
    requires PendingUpdated(t, child, pend - {(p, x)}, pend2) && (forall b, z :: (b, z) in pend ==> b < k)
    requires PendingSuffice(t, block, pend)
    ensures PendingSuffice(t, block2, pend2)
  {
    forall s, u, y | 0 <= s < |block| && 0 <= u < |block| && 0 <= y < t.letters && block2[s] == block2[u]
        && AgreeOn(t, block2, pend2, s, u, y)
      ensures block2[t.next[s][y]] == block2[t.next[u][y]]
    {
      RoundAgrees(t, block, p, x, child, k, block2, pend, pend2, s, u, y);
      var b := block[t.next[s][y]];
      assert block[t.next[u][y]] == b;
      if b in child {
        assert (b, y) in pend2 || (child[b], y) in pend2;
      }
    }
  }

  /** The first two blocks, accepting and rejecting, with one of them pending for every letter. */
  lemma InitialInvariant(t: Table, block: seq<nat>, pend: set<Pair>)
    requires Blocks(t, block) && forall s :: 0 <= s < |block| ==> block[s] == if t.accept[s] then 0 else 1
    requires forall x :: 0 <= x < t.letters ==> (0, x) in pend || (1, x) in pend
    ensures Sound(t, block) && RespectsAcceptance(t, block) && PendingSuffice(t, block, pend)
  {
    forall s, u | 0 <= s < |block| && 0 <= u < |block| && t.Equivalent(s, u) ensures block[s] == block[u] {
      assert t.Accepts(s, []) == t.Accepts(u, []);
    }
    forall s, u, x | 0 <= s < |block| && 0 <= u < |block| && 0 <= x < t.letters && block[s] == block[u]
        && AgreeOn(t, block, pend, s, u, x)
      ensures block[t.next[s][x]] == block[t.next[u][x]]
    {
      assert (0, x) in pend || (1, x) in pend;
    }
  }

  // ----- counting blocks -----

  /** Every number below k is the block of some state. */
  ghost predicate Onto(block: seq<nat>, k: nat) {
    forall b :: 0 <= b < k ==> b in block
  }

  lemma {:induction false} OntoBounds(block: seq<nat>, k: nat)
    requires Onto(block, k)
    ensures k <= |block|
  {
    if k > 0 {
      assert k - 1 in block;
      var i :| 0 <= i < |block| && block[i] == k - 1;
      var rest := block[..i] + block[i + 1..];
      forall b | 0 <= b < k - 1 ensures b in rest {
        assert b in block;
        var j :| 0 <= j < |block| && block[j] == b;
        assert rest[if j < i then j else j - 1] == b;
      }
      OntoBounds(rest, k - 1);
    }
  }

  /** Without a second kind of acceptance no word tells any states apart. */
  lemma UniformIsEquivalent(t: Table, s: nat, u: nat)
    requires t.Valid() && s < t.Size() && u < t.Size()
    requires forall q, p :: 0 <= q < t.Size() && 0 <= p < t.Size() ==> t.accept[q] == t.accept[p]
    ensures t.Equivalent(s, u)
  {
    var block := seq(t.Size(), _ => 0);
    forall w ensures t.Accepts(s, w) == t.Accepts(u, w) {
      StableStatesAgree(t, block, s, u, w);
    }
  }
}
