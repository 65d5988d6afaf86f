/** The prefix tree of the learner: a trie with a unique number for each prefix and write-once acceptance. */
module PrefixTrees {

  /** A word, spelled with the numbers of its letters. */
  type Letters = seq<nat>

  datatype Child = NoChild | Child(id: nat)

  /** A node: the child for each letter, the acceptance (1, -1, or 0 for undecided) and the prefix it stands for. */
  datatype Node = Node(children: seq<Child>, accept: int, word: Letters) {
    /** Once set to a value other than 0 the acceptance cannot be changed again. */
    function SetAccept(accept: int): Node {
      if this.accept == 0 then this.(accept := Sign(accept)) else this
    }
  }

  function NoChildren(n: nat): (r: seq<Child>)
    ensures |r| == n && forall i :: 0 <= i < n ==> r[i] == NoChild
  {
    seq(n, _ => NoChild)
  }

  function Sign(accept: int): int {
    if accept > 0 then 1 else if accept < 0 then -1 else 0
  }

  predicate OverLetters(w: Letters, alphabetSize: nat) {
    forall i :: 0 <= i < |w| ==> w[i] < alphabetSize
  }

  ghost function Prefixes(s: Letters, n: nat): set<Letters>
    requires n <= |s|
  {
    if n == 0 then {[]} else Prefixes(s, n - 1) + {s[..n]}
  }

  /** index gives the number of each stored prefix; the nodes form a tree over it. */
  ghost predicate IsTree(alphabetSize: nat, nodes: seq<Node>, index: map<Letters, nat>) {
    && [] in index && index[[]] == 0
    && (forall w {:trigger StoredAt(alphabetSize, nodes, index, w)} :: w in index ==>
         StoredAt(alphabetSize, nodes, index, w))
    && (forall i :: 0 <= i < |nodes| ==> nodes[i].word in index && index[nodes[i].word] == i)
    && (forall i :: 0 <= i < |nodes| ==> |nodes[i].children| == alphabetSize)
    && (forall i, a {:trigger nodes[i].children[a]} :: 0 <= i < |nodes| && 0 <= a < alphabetSize ==>
          nodes[i].children[a] == ChildFor(index, nodes[i].word, a))
  }

  ghost predicate StoredAt(alphabetSize: nat, nodes: seq<Node>, index: map<Letters, nat>, w: Letters)
    requires w in index
  {
    index[w] < |nodes| && nodes[index[w]].word == w && OverLetters(w, alphabetSize)
      && (w != [] ==> w[..|w| - 1] in index)
  }

  ghost function ChildFor(index: map<Letters, nat>, w: Letters, a: nat): Child {
    if w + [a] in index then Child(index[w + [a]]) else NoChild
  }

  /** The acceptance of a word, 0 for words that are not stored. */
  ghost function AcceptIn(nodes: seq<Node>, index: map<Letters, nat>, w: Letters): int {
    if w in index && index[w] < |nodes| then nodes[index[w]].accept else 0
  }

  function WithChild(nodes: seq<Node>, i: nat, c: nat, node: Node): seq<Node>
    requires i < |nodes| && c < |nodes[i].children|
  {
    nodes[i := nodes[i].(children := nodes[i].children[c := Child(|nodes|)])] + [node]
  }

  lemma Longer(s: Letters, i: nat)
    requires i < |s|
    ensures s[..i + 1] == s[..i] + [s[i]]
  {
  }

  lemma Extend(v: Letters, a: nat)
    ensures (v + [a])[..|v + [a]| - 1] == v && (v + [a])[|v|] == a
  {
  }

  lemma NewNodeKeepsTree(alphabetSize: nat, nodes: seq<Node>, index: map<Letters, nat>, i: nat, c: nat, node: Node)
    requires IsTree(alphabetSize, nodes, index) && i < |nodes| && c < alphabetSize && nodes[i].children[c] == NoChild
    requires node == Node(NoChildren(alphabetSize), 0, nodes[i].word + [c])
    ensures node.word !in index
    ensures IsTree(alphabetSize, WithChild(nodes, i, c, node), index[node.word := |nodes|])
    ensures forall w :: AcceptIn(WithChild(nodes, i, c, node), index[node.word := |nodes|], w) == AcceptIn(nodes, index,
        w)
  {
    var nodes', index' := WithChild(nodes, i, c, node), index[node.word := |nodes|];
    assert nodes[i].children[c] == ChildFor(index, nodes[i].word, c);
    forall w | w in index' ensures StoredAt(alphabetSize, nodes', index', w) {
      NewStored(alphabetSize, nodes, index, i, c, node, w);
    }
    forall j, a | 0 <= j < |nodes'| && 0 <= a < alphabetSize
        ensures nodes'[j].children[a] == ChildFor(index', nodes'[j].word, a)
    {
      NewChild(alphabetSize, nodes, index, i, c, node, j, a);
    }
  }

  lemma NewStored(alphabetSize: nat, nodes: seq<Node>, index: map<Letters, nat>, i: nat, c: nat, node: Node, w: Letters)
    requires IsTree(alphabetSize, nodes, index) && i < |nodes| && c < alphabetSize
    requires node == Node(NoChildren(alphabetSize), 0, nodes[i].word + [c]) && node.word !in index
    requires w in index[node.word := |nodes|]
    ensures StoredAt(alphabetSize, WithChild(nodes, i, c, node), index[node.word := |nodes|], w)
  {
    if w == node.word {
      Extend(nodes[i].word, c);
      assert StoredAt(alphabetSize, nodes, index, nodes[i].word);
    } else {
      assert StoredAt(alphabetSize, nodes, index, w);
    }
  }

  lemma NewChild(alphabetSize: nat, nodes: seq<Node>, index: map<Letters, nat>, i: nat, c: nat, node: Node, j: nat,
      a: nat)
    requires IsTree(alphabetSize, nodes, index) && i < |nodes| && c < alphabetSize && j <= |nodes| && a < alphabetSize
    requires node == Node(NoChildren(alphabetSize), 0, nodes[i].word + [c]) && node.word !in index
    ensures WithChild(nodes, i, c, node)[j].children[a] == ChildFor(index[node.word := |nodes|],
        WithChild(nodes, i, c, node)[j].word, a)
  {
    var v := WithChild(nodes, i, c, node)[j].word;
    Extend(v, a);
    Extend(nodes[i].word, c);
    if j < |nodes| {
      assert nodes[j].children[a] == ChildFor(index, v, a);
      assert index[v] == j && index[nodes[i].word] == i;
    } else {
      assert v + [a] in index ==> StoredAt(alphabetSize, nodes, index, v + [a]);
    }
  }

  /** Deciding the acceptance of a stored word changes nothing else. */
  lemma DecidedKeepsTree(alphabetSize: nat, nodes: seq<Node>, index: map<Letters, nat>, s: Letters, accept: int)
    requires IsTree(alphabetSize, nodes, index) && s in index && index[s] < |nodes|
    ensures IsTree(alphabetSize, nodes[index[s] := nodes[index[s]].SetAccept(accept)], index)
    ensures forall w ::
      AcceptIn(nodes[index[s] := nodes[index[s]].SetAccept(accept)], index, w)
      == if w == s && AcceptIn(nodes, index, w) == 0 then Sign(accept) else AcceptIn(nodes, index, w)
  {
    var nodes' := nodes[index[s] := nodes[index[s]].SetAccept(accept)];
    forall w | w in index ensures StoredAt(alphabetSize, nodes', index, w) {
      assert StoredAt(alphabetSize, nodes, index, w);
    }
    forall w | w in index && w != s ensures index[w] != index[s] {
      assert StoredAt(alphabetSize, nodes, index, w) && StoredAt(alphabetSize, nodes, index, s);
    }
  }

  class PrefixTree {
    const alphabetSize: nat
    var nodes: seq<Node>              // a node's position is its number
    ghost var index: map<Letters, nat>

    ghost predicate Valid()
      reads this
    {
      IsTree(alphabetSize, nodes, index)
    }

    /** The acceptance of a word, 0 for words that are not stored. */
    ghost function Accept(w: Letters): int
      requires Valid()
      reads this
    {
      AcceptIn(nodes, index, w)
    }

    constructor (alphabetSize: nat)
      ensures Valid() && this.alphabetSize == alphabetSize && index.Keys == {[]} && forall w :: Accept(w) == 0
    {
      this.alphabetSize := alphabetSize;
      nodes, index := [Node(NoChildren(alphabetSize), 0, [])], map[[] := 0];
    }

    /** The child of a node for letter c, made if there is none. */
    method Descend(current: nat, c: nat) returns (next: nat)
      requires Valid() && current < |nodes| && c < alphabetSize
      modifies this
      ensures Valid() && index.Keys == old(index).Keys + {old(nodes)[current].word + [c]}
      ensures index[old(nodes)[current].word + [c]] == next
      ensures forall w :: w in old(index) ==> index[w] == old(index)[w]
      ensures forall w :: Accept(w) == old(Accept(w))
    {
      ghost var w := nodes[current].word + [c];
      assert nodes[current].children[c] == ChildFor(index, nodes[current].word, c);
      if nodes[current].children[c].Child? {
        next := nodes[current].children[c].id;
      } else {
        var node := Node(NoChildren(alphabetSize), 0, nodes[current].word + [c]);
        NewNodeKeepsTree(alphabetSize, nodes, index, current, c, node);
        next := |nodes|;
        index, nodes := index[node.word := |nodes|], WithChild(nodes, current, c, node);
      }
    }

    /** Stores a word and decides its acceptance if that is still open; returns the number of its node. */
    method AddWord(s: Letters, accept: int) returns (current: nat)
      requires Valid() && OverLetters(s, alphabetSize)
      modifies this
      ensures Valid() && s in index && index[s] == current
      ensures index.Keys == old(index).Keys + Prefixes(s, |s|)
      ensures forall w :: w in old(index) ==> index[w] == old(index)[w]
      ensures forall w :: Accept(w) == if w != s || old(Accept(w)) != 0 then old(Accept(w))
          else if accept > 0 then 1 else if accept < 0 then -1 else 0
    {
      current := 0;
      for i := 0 to |s|
        invariant Valid() && s[..i] in index && index[s[..i]] == current
        invariant index.Keys == old(index).Keys + Prefixes(s, i)
        invariant forall w :: w in old(index) ==> index[w] == old(index)[w]
        invariant forall w :: Accept(w) == old(Accept(w))
      {
        Longer(s, i);
        assert StoredAt(alphabetSize, nodes, index, s[..i]);
        current := Descend(current, s[i]);
      }
      assert s[..|s|] == s;
      assert StoredAt(alphabetSize, nodes, index, s);
      DecidedKeepsTree(alphabetSize, nodes, index, s, accept);
      nodes := nodes[current := nodes[current].SetAccept(accept)];
    }

    /** The number of the node of a word. */
    method GetNode(s: Letters) returns (current: nat)
      requires Valid() && OverLetters(s, alphabetSize)
      modifies this
      ensures Valid() && s in index && index[s] == current
      ensures index.Keys == old(index).Keys + Prefixes(s, |s|)
      ensures forall w :: w in old(index) ==> index[w] == old(index)[w]
      ensures forall w :: Accept(w) == old(Accept(w))
    {
      current := AddWord(s, 0);
    }
  }
}
