/** Alternating refinement of blocks of states and cords of transitions. */
module Cords {
  import opened Languages

  /** A partial deterministic automaton as a list of transitions: the label of a transition is an interval. */
  datatype Net = Net(n: nat, tails: seq<nat>, labels: seq<(Char, Char)>, heads: seq<nat>) {
    function Count(): nat {
      |tails|
    }

    ghost predicate Valid() {
      && |labels| == |tails| == |heads|
      && (forall t {:trigger tails[t]} :: 0 <= t < |tails| ==> tails[t] < n)
      && (forall t {:trigger heads[t]} :: 0 <= t < |heads| ==> heads[t] < n)
      && (forall t, u {:trigger tails[t], tails[u]} ::
           0 <= t < |tails| && 0 <= u < |tails| && tails[t] == tails[u] && labels[t] == labels[u] ==> t == u)
    }
  }

  ghost predicate Numbered(net: Net, block: seq<nat>, cord: seq<nat>) {
    net.Valid() && |block| == net.n && |cord| == net.Count()
  }

  /** Some transition from s lies in cord k. */
  ghost predicate Leaves(net: Net, cord: seq<nat>, s: nat, k: nat)
    requires net.Valid() && |cord| == net.Count()
  {
    exists t :: 0 <= t < net.Count() && net.tails[t] == s && cord[t] == k
  }

  /** s and u leave by the same ones of the cords from number c on. */
  ghost predicate AgreeFrom(net: Net, cord: seq<nat>, c: nat, s: nat, u: nat)
    requires net.Valid() && |cord| == net.Count()
  {
    forall k: nat {:trigger Leaves(net, cord, s, k)} {:trigger Leaves(net, cord, u, k)} :: k >= c ==>
        (Leaves(net, cord, s, k) <==> Leaves(net, cord, u, k))
  }

  /** The cords from number c on are enough to separate the states of a block. */
  ghost predicate PendingSuffice(net: Net, block: seq<nat>, cord: seq<nat>, c: nat)
    requires Numbered(net, block, cord)
  {
    forall s: nat, u: nat {:trigger AgreeFrom(net, cord, c, s, u)} ::
        s < net.n && u < net.n && block[s] == block[u] && AgreeFrom(net, cord, c, s, u) ==>
        AgreeFrom(net, cord, 0, s, u)
  }

  ghost predicate OneLabel(net: Net, cord: seq<nat>)
    requires net.Valid() && |cord| == net.Count()
  {
    forall t, u {:trigger cord[t], cord[u]} :: 0 <= t < |cord| && 0 <= u < |cord| && cord[t] == cord[u] ==>
        net.labels[t] == net.labels[u]
  }

  /** The transitions of a cord lead into one block. */
  ghost predicate OneHead(net: Net, block: seq<nat>, cord: seq<nat>)
    requires Numbered(net, block, cord)
  {
    forall t, u {:trigger cord[t], cord[u]} :: 0 <= t < |cord| && 0 <= u < |cord| && cord[t] == cord[u] ==>
        block[net.heads[t]] == block[net.heads[u]]
  }

  // ----- splitting the blocks by cord c -----

  /** block2 separates, within each block, the states that leave by cord c from the others. */
  ghost predicate BlocksSplit(net: Net, block: seq<nat>, cord: seq<nat>, c: nat, block2: seq<nat>)
    requires Numbered(net, block, cord)
  {
    && |block2| == |block|
    && forall s: nat, u: nat {:trigger block2[s], block2[u]} :: s < net.n && u < net.n ==>
         (block2[s] == block2[u] <==> block[s] == block[u] && (Leaves(net, cord, s, c) <==> Leaves(net, cord, u, c)))
  }

  lemma BlocksSplitSuffice(net: Net, block: seq<nat>, cord: seq<nat>, c: nat, block2: seq<nat>)
    requires Numbered(net, block, cord) && PendingSuffice(net, block, cord, c)
        && BlocksSplit(net, block, cord, c, block2)
    ensures PendingSuffice(net, block2, cord, c + 1)
  {
    forall s: nat, u: nat | s < net.n && u < net.n && block2[s] == block2[u] && AgreeFrom(net, cord, c + 1, s, u)
        ensures AgreeFrom(net, cord, 0, s, u)
    {
      assert block[s] == block[u];
      assert AgreeFrom(net, cord, c, s, u);
    }
  }

  // ----- splitting the cords by block b -----

  /** cord2 separates, within each cord, the transitions into block b from the others; an old number keeps a part of its
      cord. */
  ghost predicate CordsSplit(net: Net, block: seq<nat>, cord: seq<nat>, count: nat, b: nat, cord2: seq<nat>)
    requires Numbered(net, block, cord)
  {
    && |cord2| == |cord|
    && (forall t {:trigger cord2[t]} :: 0 <= t < |cord| ==>
         cord[t] < count && (cord2[t] == cord[t] || cord2[t] >= count))
    && forall t, u {:trigger cord2[t], cord2[u]} :: 0 <= t < |cord| && 0 <= u < |cord| ==>
         (cord2[t] == cord2[u] <==> cord[t] == cord[u] && (block[net.heads[t]] == b <==> block[net.heads[u]] == b))
  }

  lemma CordsSplitAgree(net: Net, block: seq<nat>, cord: seq<nat>, count: nat, b: nat, cord2: seq<nat>, c: nat, s: nat,
      u: nat)
    requires Numbered(net, block, cord) && CordsSplit(net, block, cord, count, b, cord2) && c <= count
        && AgreeFrom(net, cord2, c, s, u)
    ensures AgreeFrom(net, cord, c, s, u)
  {
    forall k: nat | k >= c ensures Leaves(net, cord, s, k) <==> Leaves(net, cord, u, k) {
      if Leaves(net, cord, s, k) {
        LeavesToo(net, block, cord, count, b, cord2, c, s, u, k);
      }
      if Leaves(net, cord, u, k) {
        LeavesToo(net, block, cord, count, b, cord2, c, u, s, k);
      }
    }
  }

  lemma LeavesToo(net: Net, block: seq<nat>, cord: seq<nat>, count: nat, b: nat, cord2: seq<nat>, c: nat, s: nat,
      u: nat, k: nat)
    requires Numbered(net, block, cord) && CordsSplit(net, block, cord, count, b, cord2) && c <= count
        && AgreeFrom(net, cord2, c, s, u)
    requires k >= c && Leaves(net, cord, s, k)
    ensures Leaves(net, cord, u, k)
  {
    var t :| 0 <= t < net.Count() && net.tails[t] == s && cord[t] == k;
    assert cord2[t] >= c && Leaves(net, cord2, s, cord2[t]);
    assert Leaves(net, cord2, u, cord2[t]);
    var t' :| 0 <= t' < net.Count() && net.tails[t'] == u && cord2[t'] == cord2[t];
    assert cord[t'] == k;
  }

  /** A processed cord that was split: agreement on the new part carries over to the old one, each state having one
      transition for a label. */
  lemma OldPartAgrees(net: Net, block: seq<nat>, cord: seq<nat>, count: nat, b: nat, cord2: seq<nat>, c: nat, s: nat,
      u: nat, k: nat)
    requires Numbered(net, block, cord) && CordsSplit(net, block, cord, count, b, cord2) && OneLabel(net, cord)
        && c <= count
    requires AgreeFrom(net, cord2, c, s, u) && AgreeFrom(net, cord, 0, s, u) && k < c && Leaves(net, cord2, s, k)
    ensures Leaves(net, cord2, u, k)
  {
    var t :| 0 <= t < net.Count() && net.tails[t] == s && cord2[t] == k;
    assert cord[t] == k && Leaves(net, cord, s, k);
    assert Leaves(net, cord, u, k);
    var t' :| 0 <= t' < net.Count() && net.tails[t'] == u && cord[t'] == k;
    var k' := cord2[t'];
    assert forall x {:trigger cord[x]} :: 0 <= x < net.Count() && net.tails[x] == s && cord[x] == k ==>
        net.labels[x] == net.labels[t];
    assert Leaves(net, cord2, u, k');
  }

  lemma CordsSplitSuffice(net: Net, block: seq<nat>, cord: seq<nat>, count: nat, b: nat, cord2: seq<nat>, c: nat)
    requires Numbered(net, block, cord) && CordsSplit(net, block, cord, count, b, cord2) && OneLabel(net, cord)
        && c <= count
    requires PendingSuffice(net, block, cord, c)
    ensures PendingSuffice(net, block, cord2, c) && OneLabel(net, cord2)
  {
    forall s: nat, u: nat | s < net.n && u < net.n && block[s] == block[u] && AgreeFrom(net, cord2, c, s, u)
        ensures AgreeFrom(net, cord2, 0, s, u)
    {
      CordsSplitAgree(net, block, cord, count, b, cord2, c, s, u);
      forall k: nat ensures Leaves(net, cord2, s, k) <==> Leaves(net, cord2, u, k) {
        if k < c && Leaves(net, cord2, s, k) {
          OldPartAgrees(net, block, cord, count, b, cord2, c, s, u, k);
        }
        if k < c && Leaves(net, cord2, u, k) {
          OldPartAgrees(net, block, cord, count, b, cord2, c, u, s, k);
        }
      }
    }
  }

  /** Cords that have been split by all blocks but the first lead into one block each. */
  ghost predicate HeadsAgreeOn(net: Net, block: seq<nat>, cord: seq<nat>, b: nat)
    requires Numbered(net, block, cord)
  {
    forall t, u, a: nat {:trigger cord[t], cord[u], In(net, block, t, a)} ::
        0 <= t < |cord| && 0 <= u < |cord| && cord[t] == cord[u] && 1 <= a < b ==>
      (In(net, block, t, a) <==> In(net, block, u, a))
  }

  predicate In(net: Net, block: seq<nat>, t: nat, a: nat)
    requires t < |net.heads| && net.heads[t] < |block|
  {
    block[net.heads[t]] == a
  }

  lemma AllBlocksAgree(net: Net, block: seq<nat>, cord: seq<nat>, count: nat)
    requires Numbered(net, block, cord) && HeadsAgreeOn(net, block, cord, count) && forall s {:trigger block[s]} ::
        0 <= s < |block| ==> block[s] < count
    ensures OneHead(net, block, cord)
  {
    forall t, u | 0 <= t < |cord| && 0 <= u < |cord| && cord[t] == cord[u]
        ensures block[net.heads[t]] == block[net.heads[u]]
    {
      assert In(net, block, t, block[net.heads[t]]) && In(net, block, u, block[net.heads[u]]);
    }
  }

  lemma HeadsAgreeOnOneMore(net: Net, block: seq<nat>, cord: seq<nat>, count: nat, b: nat, cord2: seq<nat>)
    requires Numbered(net, block, cord) && CordsSplit(net, block, cord, count, b, cord2) && b >= 1
        && HeadsAgreeOn(net, block, cord, b)
    ensures HeadsAgreeOn(net, block, cord2, b + 1)
  {
    forall t, u, a: nat | 0 <= t < |cord| && 0 <= u < |cord| && cord2[t] == cord2[u] && 1 <= a < b + 1
        ensures In(net, block, t, a) <==> In(net, block, u, a)
    {
      assert cord[t] == cord[u];
    }
  }

  // ----- when nothing is pending -----

  /** States of one block leave by the same labels into the same blocks. */
  ghost predicate Stable(net: Net, block: seq<nat>)
    requires net.Valid() && |block| == net.n
  {
    forall t, s: nat {:trigger Answers(net, block, t, s)} ::
        0 <= t < net.Count() && s < net.n && block[net.tails[t]] == block[s] ==> Answers(net, block, t, s)
  }

  ghost predicate Answers(net: Net, block: seq<nat>, t: nat, s: nat)
    requires net.Valid() && |block| == net.n && t < net.Count()
  {
    exists u :: 0 <= u < net.Count() && net.tails[u] == s && net.labels[u] == net.labels[t]
        && block[net.heads[u]] == block[net.heads[t]]
  }

  lemma NothingPending(net: Net, block: seq<nat>, cord: seq<nat>, c: nat)
    requires Numbered(net, block, cord) && PendingSuffice(net, block, cord, c) && OneLabel(net, cord)
        && OneHead(net, block, cord)
    requires forall t {:trigger cord[t]} :: 0 <= t < |cord| ==> cord[t] < c
    ensures Stable(net, block)
  {
    forall t, s: nat | 0 <= t < net.Count() && s < net.n && block[net.tails[t]] == block[s]
        ensures Answers(net, block, t, s)
    {
      var r := net.tails[t];
      forall k: nat | k >= c ensures !Leaves(net, cord, r, k) && !Leaves(net, cord, s, k) {}
      assert AgreeFrom(net, cord, c, r, s);
      assert Leaves(net, cord, r, cord[t]);
      assert Leaves(net, cord, s, cord[t]);
      var u :| 0 <= u < net.Count() && net.tails[u] == s && cord[u] == cord[t];
    }
  }
}
