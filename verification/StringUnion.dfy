/** Incremental construction of the minimal acyclic automaton of a sorted list of words. */
module StringUnions {
  import opened Languages
  import opened Automata
  import Minimization
  import Products

  /** A state of the builder: ascending labels, the identities of the children, acceptance. Two states are equal for the
      register when their labels, their children and their acceptance are. */
  datatype Node = Node(labels: seq<Char>, children: seq<nat>, isFinal: bool)

  ghost predicate Shaped(nodes: seq<Node>) {
    && (forall q {:trigger nodes[q]} :: 0 <= q < |nodes| ==>
         |nodes[q].labels| == |nodes[q].children| && Ascends(nodes[q].labels))
    && (forall q, i {:trigger nodes[q].children[i]} :: 0 <= q < |nodes| && 0 <= i < |nodes[q].children| ==>
         nodes[q].children[i] < |nodes|)
  }

  ghost predicate Ascends(labels: seq<Char>) {
    forall i, j {:trigger labels[i], labels[j]} :: 0 <= i < j < |labels| ==> labels[i] < labels[j]
  }

  /** The right language of a state. */
  ghost predicate Accepts(nodes: seq<Node>, q: nat, w: Word)
    requires Shaped(nodes) && q < |nodes|
    decreases |w|
  {
    if w == [] then nodes[q].isFinal
    else exists i :: 0 <= i < |nodes[q].labels| && nodes[q].labels[i] == w[0] && Accepts(nodes, nodes[q].children[i],
      w[1..])
  }

  lemma ByLabel(nodes: seq<Node>, q: nat, i: nat, w: Word)
    requires Shaped(nodes) && q < |nodes| && i < |nodes[q].labels| && w != [] && nodes[q].labels[i] == w[0]
    ensures Accepts(nodes, q, w) <==> Accepts(nodes, nodes[q].children[i], w[1..])
  {
  }

  /** The registered states in the order of their registration: the children of a state have been registered before it.
      */
  ghost predicate Registered(nodes: seq<Node>, register: map<Node, nat>, order: seq<nat>) {
    && (forall k {:trigger k in register} :: k in register ==>
         register[k] < |nodes| && nodes[register[k]] == k && register[k] in order)
    && (forall i {:trigger order[i]} :: 0 <= i < |order| ==>
         order[i] < |nodes| && nodes[order[i]] in register && register[nodes[order[i]]] == order[i])
    && (forall i, j {:trigger order[i], order[j]} :: 0 <= i < j < |order| ==> order[i] != order[j])
    && (forall i, c {:trigger nodes[order[i]].children[c]} ::
         0 <= i < |order| && order[i] < |nodes| && 0 <= c < |nodes[order[i]].children| ==>
         nodes[order[i]].children[c] in order[..i])
    && (forall i {:trigger order[i]} :: 0 <= i < |order| && order[i] < |nodes| ==>
         nodes[order[i]].isFinal || nodes[order[i]].labels != [])
  }

  /** The states still open: each is the last child of the one before, all other children are registered. */
  ghost predicate Open(nodes: seq<Node>, order: seq<nat>, path: seq<nat>, word: Word)
    requires Shaped(nodes)
  {
    && |path| == |word| + 1 && path[0] == 0
    && (forall i {:trigger path[i]} :: 0 <= i < |path| ==> path[i] < |nodes| && path[i] !in order)
    && (forall i, j {:trigger path[i], path[j]} :: 0 <= i < j < |path| ==> path[i] != path[j])
    && (forall i {:trigger word[i]} :: 0 <= i < |word| ==> Continues(nodes[path[i]], word[i], path[i + 1]))
    && (forall i, c {:trigger nodes[path[i]].children[c]} ::
         0 <= i < |path| && 0 <= c < |nodes[path[i]].children| && (i < |word| ==> c < |nodes[path[i]].children| - 1) ==>
          nodes[path[i]].children[c] in order)
  }

  predicate Continues(n: Node, c: Char, child: nat) {
    |n.labels| == |n.children| > 0 && n.labels[|n.labels| - 1] == c && n.children[|n.children| - 1] == child
  }

  // ----- what changes and what does not -----

  /** Registered states keep their right languages as long as they are not written to. */
  lemma {:induction false} RegisteredKeep(nodes: seq<Node>, nodes': seq<Node>, register: map<Node, nat>,
      order: seq<nat>, q: nat, w: Word)
    requires Shaped(nodes) && Shaped(nodes') && Registered(nodes, register, order) && |nodes| <= |nodes'|
    requires forall r {:trigger r in order} :: r in order ==> r < |nodes| && nodes'[r] == nodes[r]
    requires q in order
    ensures Accepts(nodes', q, w) <==> Accepts(nodes, q, w)
    decreases |w|
  {
    if w != [] {
      var k :| 0 <= k < |order| && order[k] == q;
      forall i | 0 <= i < |nodes[q].labels| ensures Accepts(nodes', nodes[q].children[i], w[1..]) <==>
          Accepts(nodes, nodes[q].children[i], w[1..])
      {
        assert nodes[order[k]].children[i] in order[..k];
        RegisteredKeep(nodes, nodes', register, order, nodes[q].children[i], w[1..]);
      }
    }
  }

  /** One step along the path. */
  lemma AlongStep(nodes: seq<Node>, order: seq<nat>, path: seq<nat>, word: Word, i: nat, v: Word)
    requires Shaped(nodes) && Open(nodes, order, path, word) && i < |word| && v != [] && v[0] == word[i]
    ensures Accepts(nodes, path[i], v) <==> Accepts(nodes, path[i + 1], v[1..])
  {
    assert Continues(nodes[path[i]], word[i], path[i + 1]);
    ByLabel(nodes, path[i], |nodes[path[i]].labels| - 1, v);
  }

  /** Along the path a word that begins with what is left of the path's word is read to the path's end. */
  lemma {:induction false} AlongPath(nodes: seq<Node>, order: seq<nat>, path: seq<nat>, word: Word, i: nat, v: Word)
    requires Shaped(nodes) && Open(nodes, order, path, word) && i <= |word| && word[i..] <= v
    ensures Accepts(nodes, path[i], v) <==> Accepts(nodes, path[|word|], v[|word| - i..])
    decreases |word| - i
  {
    if i < |word| {
      PrefixDown(word, i, v);
      AlongStep(nodes, order, path, word, i, v);
      AlongPath(nodes, order, path, word, i + 1, v[1..]);
    }
  }

  lemma PrefixDown(word: Word, i: nat, v: Word)
    requires i < |word| && word[i..] <= v
    ensures v != [] && v[0] == word[i] && word[i + 1..] <= v[1..] && v[1..][|word| - (i + 1)..] == v[|word| - i..]
  {
    assert word[i..][0] == word[i] && word[i..][1..] == word[i + 1..];
  }

  lemma PrefixStep(word: Word, i: nat, v: Word)
    requires i < |word| && v != []
    ensures word[i..] <= v <==> v[0] == word[i] && word[i + 1..] <= v[1..]
  {
    assert word[i..] == [word[i]] + word[i + 1..] && v == [v[0]] + v[1..];
  }

  /** Changing the state at the end of the path changes nothing for words that leave the path before its end. */
  lemma {:induction false} OffPath(nodes: seq<Node>, nodes': seq<Node>, register: map<Node, nat>, order: seq<nat>,
      path: seq<nat>, word: Word, i: nat, v: Word)
    requires Shaped(nodes) && Shaped(nodes') && Registered(nodes, register, order) && Open(nodes, order, path, word)
        && |nodes| <= |nodes'|
    requires forall r {:trigger r in order} :: r in order ==> r < |nodes| && nodes'[r] == nodes[r]
    requires forall j {:trigger path[j]} :: 0 <= j < |word| ==> nodes'[path[j]] == nodes[path[j]]
    requires i <= |word| && !(word[i..] <= v)
    ensures Accepts(nodes', path[i], v) <==> Accepts(nodes, path[i], v)
    decreases |word| - i
  {
    var n := nodes[path[i]];
    assert i < |word|;
    assert Continues(n, word[i], path[i + 1]);
    if v != [] {
      var last := |n.labels| - 1;
      forall c | 0 <= c <= last && n.labels[c] == v[0] ensures Accepts(nodes', n.children[c], v[1..]) <==>
          Accepts(nodes, n.children[c], v[1..])
      {
        if c == last {
          PrefixStep(word, i, v);
          OffPath(nodes, nodes', register, order, path, word, i + 1, v[1..]);
        } else {
          assert nodes[path[i]].children[c] in order;
          RegisteredKeep(nodes, nodes', register, order, n.children[c], v[1..]);
        }
      }
    }
  }

  lemma OpenHasLabels(nodes: seq<Node>, order: seq<nat>, path: seq<nat>, word: Word, i: nat)
    requires Shaped(nodes) && Open(nodes, order, path, word) && i <= |word|
    ensures i < |word| ==> nodes[path[i]].labels != []
  {
    if i < |word| {
      assert Continues(nodes[path[i]], word[i], path[i + 1]);
    }
  }

  // ----- the four ways in which the automaton is changed -----

  function WithChild(nodes: seq<Node>, q: nat, c: Char): seq<Node>
    requires q < |nodes|
  {
    nodes[q := Node(nodes[q].labels + [c], nodes[q].children + [|nodes|], nodes[q].isFinal)] + [Node([], [], false)]
  }

  function WithFinal(nodes: seq<Node>, q: nat): seq<Node>
    requires q < |nodes|
  {
    nodes[q := nodes[q].(isFinal := true)]
  }

  function WithLastChild(nodes: seq<Node>, q: nat, r: nat): seq<Node>
    requires q < |nodes| && nodes[q].children != []
  {
    nodes[q := nodes[q].(children := nodes[q].children[|nodes[q].children| - 1 := r])]
  }

  /** What every change keeps. */
  ghost predicate Building(nodes: seq<Node>, register: map<Node, nat>, order: seq<nat>, path: seq<nat>, word: Word) {
    Shaped(nodes) && nodes != [] && Registered(nodes, register, order) && Open(nodes, order, path, word)
  }

  /** Writing to a state that is not registered leaves the register as it is. */
  lemma RegisterStays(nodes: seq<Node>, nodes': seq<Node>, register: map<Node, nat>, order: seq<nat>)
    requires Registered(nodes, register, order) && |nodes| <= |nodes'| && forall r {:trigger r in order} ::
        r in order ==> r < |nodes| && nodes'[r] == nodes[r]
    ensures Registered(nodes', register, order)
  {
    forall i | 0 <= i < |order| ensures order[i] < |nodes| && nodes'[order[i]] == nodes[order[i]] {
      assert order[i] in order;
    }
  }

  lemma RegisteredExist(nodes: seq<Node>, register: map<Node, nat>, order: seq<nat>)
    requires Registered(nodes, register, order)
    ensures forall r {:trigger r in order} :: r in order ==> r < |nodes|
  {
  }

  /** A new child for the state at the end of the path, not accepting anything yet. */
  lemma NewChildKeeps(nodes: seq<Node>, register: map<Node, nat>, order: seq<nat>, path: seq<nat>, word: Word, c: Char)
    requires Building(nodes, register, order, path, word)
    requires forall i {:trigger nodes[path[|word|]].labels[i]} :: 0 <= i < |nodes[path[|word|]].labels| ==>
        nodes[path[|word|]].labels[i] < c
    ensures Building(WithChild(nodes, path[|word|], c), register, order, path + [|nodes|], word + [c])
  {
    var q := path[|word|];
    var nodes', path', word' := WithChild(nodes, q, c), path + [|nodes|], word + [c];
    RegisteredExist(nodes, register, order);
    RegisterStays(nodes, nodes', register, order);
    forall i | 0 <= i < |path'| ensures path'[i] < |nodes'| && path'[i] !in order {
      if i < |path| {
        var _ := path[i];
      }
    }
    forall i | 0 <= i < |word'| ensures Continues(nodes'[path'[i]], word'[i], path'[i + 1]) {
      if i < |word| {
        assert path[i] != q && Continues(nodes[path[i]], word[i], path[i + 1]);
      }
    }
    forall i, d | 0 <= i < |path'| && 0 <= d < |nodes'[path'[i]].children|
        && (i < |word'| ==> d < |nodes'[path'[i]].children| - 1)
      ensures nodes'[path'[i]].children[d] in order
    {
      if i < |path| {
        assert i < |word| ==> path[i] != q;
        var _ := nodes[path[i]].children[d];
      }
    }
  }

  /** At the end of the path the new child adds no words. */
  lemma NewChildAtEnd(nodes: seq<Node>, register: map<Node, nat>, order: seq<nat>, path: seq<nat>, word: Word, c: Char,
      u: Word)
    requires Building(nodes, register, order, path, word) && Shaped(WithChild(nodes, path[|word|], c))
    requires forall i {:trigger nodes[path[|word|]].labels[i]} :: 0 <= i < |nodes[path[|word|]].labels| ==>
        nodes[path[|word|]].labels[i] < c
    ensures Accepts(WithChild(nodes, path[|word|], c), path[|word|], u) <==> Accepts(nodes, path[|word|], u)
  {
    var q := path[|word|];
    var nodes' := WithChild(nodes, q, c);
    RegisteredExist(nodes, register, order);
    if u != [] {
      forall i | 0 <= i < |nodes[q].labels| && nodes[q].labels[i] == u[0]
          ensures Accepts(nodes', nodes[q].children[i], u[1..]) <==> Accepts(nodes, nodes[q].children[i], u[1..])
      {
        assert nodes[path[|word|]].children[i] in order;
        RegisteredKeep(nodes, nodes', register, order, nodes[q].children[i], u[1..]);
      }
      assert !Accepts(nodes', |nodes|, u[1..]);
      forall i | 0 <= i < |nodes'[q].labels| && nodes'[q].labels[i] == u[0]
          && Accepts(nodes', nodes'[q].children[i], u[1..]) ensures i < |nodes[q].labels| {}
      if i :| 0 <= i < |nodes[q].labels| && nodes[q].labels[i] == u[0] && Accepts(nodes, nodes[q].children[i], u[1..]) {
        assert nodes'[q].labels[i] == u[0] && nodes'[q].children[i] == nodes[q].children[i];
      }
    }
  }

  lemma NewChildAddsNothing(nodes: seq<Node>, register: map<Node, nat>, order: seq<nat>, path: seq<nat>, word: Word,
      c: Char, v: Word)
    requires Building(nodes, register, order, path, word)
    requires forall i {:trigger nodes[path[|word|]].labels[i]} :: 0 <= i < |nodes[path[|word|]].labels| ==>
        nodes[path[|word|]].labels[i] < c
    ensures Shaped(WithChild(nodes, path[|word|], c)) && (Accepts(WithChild(nodes, path[|word|], c), 0, v) <==>
        Accepts(nodes, 0, v))
  {
    var q := path[|word|];
    var nodes' := WithChild(nodes, q, c);
    NewChildKeeps(nodes, register, order, path, word, c);
    RegisteredExist(nodes, register, order);
    assert word[0..] == word;
    if word <= v {
      var u := v[|word|..];
      AlongPath(nodes, order, path, word, 0, v);
      AlongNewPath(nodes, nodes', register, order, path, word, v);
      NewChildAtEnd(nodes, register, order, path, word, c, u);
    } else {
      OffPath(nodes, nodes', register, order, path, word, 0, v);
    }
  }

  /** The path's word is still read along the path after a change at its end. */
  lemma AlongNewPath(nodes: seq<Node>, nodes': seq<Node>, register: map<Node, nat>, order: seq<nat>, path: seq<nat>,
      word: Word, v: Word)
    requires Building(nodes, register, order, path, word) && Shaped(nodes') && |nodes| <= |nodes'| && word <= v
    requires forall j {:trigger path[j]} :: 0 <= j < |word| ==> nodes'[path[j]] == nodes[path[j]]
    ensures Accepts(nodes', 0, v) <==> Accepts(nodes', path[|word|], v[|word|..])
  {
    AlongNew(nodes, nodes', order, path, word, 0, v);
  }

  lemma {:induction false} AlongNew(nodes: seq<Node>, nodes': seq<Node>, order: seq<nat>, path: seq<nat>, word: Word,
      i: nat, v: Word)
    requires Shaped(nodes) && Open(nodes, order, path, word) && Shaped(nodes') && |nodes| <= |nodes'| && i <= |word|
        && word[i..] <= v
    requires forall j {:trigger path[j]} :: 0 <= j < |word| ==> nodes'[path[j]] == nodes[path[j]]
    ensures Accepts(nodes', path[i], v) <==> Accepts(nodes', path[|word|], v[|word| - i..])
    decreases |word| - i
  {
    if i < |word| {
      assert Continues(nodes[path[i]], word[i], path[i + 1]);
      assert v[0] == word[i..][0];
      ByLabel(nodes', path[i], |nodes'[path[i]].labels| - 1, v);
      PrefixStep(word, i, v);
      AlongNew(nodes, nodes', order, path, word, i + 1, v[1..]);
      assert v[1..][|word| - (i + 1)..] == v[|word| - i..];
    }
  }

  lemma FinalKeeps(nodes: seq<Node>, register: map<Node, nat>, order: seq<nat>, path: seq<nat>, word: Word)
    requires Building(nodes, register, order, path, word)
    ensures Building(WithFinal(nodes, path[|word|]), register, order, path, word)
  {
    RegisteredExist(nodes, register, order);
    RegisterStays(nodes, WithFinal(nodes, path[|word|]), register, order);
    forall i | 0 <= i < |word| ensures Continues(WithFinal(nodes, path[|word|])[path[i]], word[i], path[i + 1]) {
      assert Continues(nodes[path[i]], word[i], path[i + 1]);
    }
    forall i, c | 0 <= i < |path| && 0 <= c < |WithFinal(nodes, path[|word|])[path[i]].children|
        && (i < |word| ==> c < |WithFinal(nodes, path[|word|])[path[i]].children| - 1)
      ensures WithFinal(nodes, path[|word|])[path[i]].children[c] in order
    {
      var _ := nodes[path[i]].children[c];
    }
  }

  /** Making the end of the path final adds the path's word and nothing else. */
  lemma FinalAddsWord(nodes: seq<Node>, register: map<Node, nat>, order: seq<nat>, path: seq<nat>, word: Word, v: Word)
    requires Building(nodes, register, order, path, word)
    ensures Shaped(WithFinal(nodes, path[|word|])) && (Accepts(WithFinal(nodes, path[|word|]), 0, v) <==>
        v == word || Accepts(nodes, 0, v))
  {
    var q := path[|word|];
    var nodes' := WithFinal(nodes, q);
    FinalKeeps(nodes, register, order, path, word);
    RegisteredExist(nodes, register, order);
    assert word[0..] == word;
    if word <= v {
      var u := v[|word|..];
      AlongPath(nodes, order, path, word, 0, v);
      AlongNewPath(nodes, nodes', register, order, path, word, v);
      assert u == [] <==> v == word;
      if u != [] {
        forall i | 0 <= i < |nodes[q].labels| && nodes[q].labels[i] == u[0]
            ensures Accepts(nodes', nodes[q].children[i], u[1..]) <==> Accepts(nodes, nodes[q].children[i], u[1..])
        {
          assert nodes[path[|word|]].children[i] in order;
          RegisteredKeep(nodes, nodes', register, order, nodes[q].children[i], u[1..]);
        }
      }
    } else {
      OffPath(nodes, nodes', register, order, path, word, 0, v);
    }
  }

  lemma RegisterOneMore(nodes: seq<Node>, register: map<Node, nat>, order: seq<nat>, q: nat)
    requires Shaped(nodes) && Registered(nodes, register, order) && q < |nodes| && q !in order && nodes[q] !in register
    requires (nodes[q].isFinal || nodes[q].labels != []) && forall c {:trigger nodes[q].children[c]} ::
        0 <= c < |nodes[q].children| ==> nodes[q].children[c] in order
    ensures Registered(nodes, register[nodes[q] := q], order + [q])
  {
    var register', order' := register[nodes[q] := q], order + [q];
    forall i, c | 0 <= i < |order'| && order'[i] < |nodes| && 0 <= c < |nodes[order'[i]].children|
        ensures nodes[order'[i]].children[c] in order'[..i]
    {
      if i < |order| {
        assert nodes[order[i]].children[c] in order[..i];
        assert order'[..i] == order[..i];
      } else {
        assert order'[..i] == order;
      }
    }
    forall k | k in register' ensures register'[k] < |nodes| && nodes[register'[k]] == k && register'[k] in order' {
      if k != nodes[q] {
        assert register[k] in order;
      }
    }
  }

  lemma PathOneLess(nodes: seq<Node>, order: seq<nat>, path: seq<nat>, word: Word)
    requires Shaped(nodes) && Open(nodes, order, path, word) && word != []
    ensures Open(nodes, order + [path[|word|]], path[..|word|], word[..|word| - 1])
  {
    var n := |word|;
    var order' := order + [path[n]];
    forall i | 0 <= i < |path[..n]| ensures path[..n][i] < |nodes| && path[..n][i] !in order' {
      assert path[i] !in order && path[i] != path[n];
    }
    forall i | 0 <= i < n - 1 ensures Continues(nodes[path[i]], word[..n - 1][i], path[i + 1]) {
      assert Continues(nodes[path[i]], word[i], path[i + 1]);
    }
    forall i, c | 0 <= i < n && 0 <= c < |nodes[path[i]].children| && (i < n - 1 ==> c < |nodes[path[i]].children| - 1)
        ensures nodes[path[i]].children[c] in order'
    {
      if c < |nodes[path[i]].children| - 1 {
        assert nodes[path[i]].children[c] in order;
      } else {
        assert Continues(nodes[path[i]], word[i], path[i + 1]);
      }
    }
  }

  /** The end of the path is registered and the path is one state shorter. */
  lemma RegisterKeeps(nodes: seq<Node>, register: map<Node, nat>, order: seq<nat>, path: seq<nat>, word: Word)
    requires Building(nodes, register, order, path, word) && word != [] && nodes[path[|word|]] !in register
    requires nodes[path[|word|]].isFinal || nodes[path[|word|]].labels != []
    ensures Building(nodes, register[nodes[path[|word|]] := path[|word|]], order + [path[|word|]], path[..|word|],
        word[..|word| - 1])
  {
    var q := path[|word|];
    assert q !in order;
    forall c | 0 <= c < |nodes[q].children| ensures nodes[q].children[c] in order {
      assert nodes[path[|word|]].children[c] in order;
    }
    RegisterOneMore(nodes, register, order, q);
    PathOneLess(nodes, order, path, word);
  }

  /** The last child is replaced by an equal registered state and the path is one state shorter. */
  lemma ReplaceKeeps(nodes: seq<Node>, register: map<Node, nat>, order: seq<nat>, path: seq<nat>, word: Word)
    requires Building(nodes, register, order, path, word) && word != [] && nodes[path[|word|]] in register
    ensures nodes[path[|word| - 1]].children != []
    ensures Building(WithLastChild(nodes, path[|word| - 1], register[nodes[path[|word|]]]), register, order,
        path[..|word|], word[..|word| - 1])
  {
    var n := |word|;
    var p, r := path[n - 1], register[nodes[path[n]]];
    assert Continues(nodes[p], word[n - 1], path[n]);
    assert p !in order && r in order;
    var nodes' := WithLastChild(nodes, p, r);
    RegisteredExist(nodes, register, order);
    RegisterStays(nodes, nodes', register, order);
    forall i | 0 <= i < n - 1 ensures Continues(nodes'[path[i]], word[..n - 1][i], path[i + 1]) {
      assert path[i] != path[n - 1] && Continues(nodes[path[i]], word[i], path[i + 1]);
    }
    forall i, c | 0 <= i < n && 0 <= c < |nodes'[path[i]].children|
        && (i < n - 1 ==> c < |nodes'[path[i]].children| - 1) ensures nodes'[path[i]].children[c] in order
    {
      assert i < n - 1 ==> path[i] != path[n - 1];
      if c < |nodes[path[i]].children| - 1 {
        assert nodes[path[i]].children[c] in order;
      }
    }
    forall i | 0 <= i < n ensures path[i] < |nodes'| && path[i] !in order {
    }
  }

  /** An equal state has the same right language. */
  lemma EqualNodesAgree(nodes: seq<Node>, q: nat, r: nat, w: Word)
    requires Shaped(nodes) && q < |nodes| && r < |nodes| && nodes[q] == nodes[r]
    ensures Accepts(nodes, q, w) <==> Accepts(nodes, r, w)
  {
  }

  lemma ReplaceChangesNothing(nodes: seq<Node>, register: map<Node, nat>, order: seq<nat>, path: seq<nat>, word: Word,
      v: Word)
    requires Building(nodes, register, order, path, word) && word != [] && nodes[path[|word|]] in register
    ensures nodes[path[|word| - 1]].children != []
    ensures Shaped(WithLastChild(nodes, path[|word| - 1], register[nodes[path[|word|]]]))
    ensures Accepts(WithLastChild(nodes, path[|word| - 1], register[nodes[path[|word|]]]), 0, v) <==>
        Accepts(nodes, 0, v)
  {
    var n := |word|;
    var p, q := path[n - 1], path[n];
    var r := register[nodes[q]];
    ReplaceKeeps(nodes, register, order, path, word);
    assert Continues(nodes[p], word[n - 1], q);
    var nodes' := WithLastChild(nodes, p, r);
    RegisteredExist(nodes, register, order);
    ReplaceAt(nodes, nodes', register, order, path, word, 0, v);
  }

  /** With the last child of path[n-1] replaced by an equal state, the states of the path keep their right languages. */
  lemma {:induction false} ReplaceAt(nodes: seq<Node>, nodes': seq<Node>, register: map<Node, nat>, order: seq<nat>,
      path: seq<nat>, word: Word, i: nat, v: Word)
    requires Building(nodes, register, order, path, word) && word != [] && nodes[path[|word|]] in register && i < |word|
    requires nodes[path[|word| - 1]].children != []
        && nodes' == WithLastChild(nodes, path[|word| - 1], register[nodes[path[|word|]]]) && Shaped(nodes')
    ensures Accepts(nodes', path[i], v) <==> Accepts(nodes, path[i], v)
    decreases |word| - i
  {
    var n := |word|;
    var m, m' := nodes[path[i]], nodes'[path[i]];
    var r := register[nodes[path[n]]];
    RegisteredExist(nodes, register, order);
    assert r in order && path[n - 1] !in order;
    assert Continues(m, word[i], path[i + 1]);
    assert i < n - 1 ==> path[i] != path[n - 1];
    if v != [] {
      forall c | 0 <= c < |m.labels| && m.labels[c] == v[0] ensures Accepts(nodes', m'.children[c], v[1..]) <==>
          Accepts(nodes, m.children[c], v[1..])
      {
        if c < |m.labels| - 1 {
          assert nodes[path[i]].children[c] in order;
          RegisteredKeep(nodes, nodes', register, order, m.children[c], v[1..]);
        } else if i < n - 1 {
          ReplaceAt(nodes, nodes', register, order, path, word, i + 1, v[1..]);
        } else {
          RegisteredKeep(nodes, nodes', register, order, r, v[1..]);
          EqualNodesAgree(nodes, r, path[n], v[1..]);
        }
      }
    }
  }

  // ----- registered states are all different -----

  lemma ChildRank(nodes: seq<Node>, register: map<Node, nat>, order: seq<nat>, i: nat, c: nat) returns (j: nat)
    requires Shaped(nodes) && Registered(nodes, register, order) && i < |order| && order[i] < |nodes|
        && c < |nodes[order[i]].children|
    ensures j < i && order[j] == nodes[order[i]].children[c]
  {
    assert nodes[order[i]].children[c] in order[..i];
    j :| 0 <= j < i && order[j] == nodes[order[i]].children[c];
  }

  lemma {:induction false} RegisteredIsLive(nodes: seq<Node>, register: map<Node, nat>, order: seq<nat>, i: nat)
      returns (w: Word)
    requires Shaped(nodes) && Registered(nodes, register, order) && i < |order|
    ensures Accepts(nodes, order[i], w)
    decreases i
  {
    var q := order[i];
    if nodes[q].isFinal {
      w := [];
    } else {
      var j := ChildRank(nodes, register, order, i, 0);
      var v := RegisteredIsLive(nodes, register, order, j);
      w := [nodes[q].labels[0]] + v;
      assert w[1..] == v;
      ByLabel(nodes, q, 0, w);
    }
  }

  /** Words accepted by the i-th registered state are not longer than i. */
  lemma {:induction false} RegisteredIsShort(nodes: seq<Node>, register: map<Node, nat>, order: seq<nat>, i: nat,
      w: Word)
    requires Shaped(nodes) && Registered(nodes, register, order) && i < |order| && Accepts(nodes, order[i], w)
    ensures |w| <= i
    decreases i
  {
    var q := order[i];
    if w != [] {
      var c :| 0 <= c < |nodes[q].labels| && nodes[q].labels[c] == w[0] && Accepts(nodes, nodes[q].children[c], w[1..]);
      var j := ChildRank(nodes, register, order, i, c);
      RegisteredIsShort(nodes, register, order, j, w[1..]);
    }
  }

  ghost predicate SameRight(nodes: seq<Node>, q: nat, p: nat)
    requires Shaped(nodes) && q < |nodes| && p < |nodes|
  {
    forall w :: Accepts(nodes, q, w) <==> Accepts(nodes, p, w)
  }

  lemma LargestLabel(s: seq<Char>) returns (rest: seq<Char>, last: Char)
    requires Ascends(s) && s != []
    ensures s == rest + [last] && Ascends(rest) && last in s
    ensures forall c: Char :: c in s ==> c <= last
    ensures forall c: Char :: c in rest <==> c in s && c != last
  {
    rest, last := s[..|s| - 1], s[|s| - 1];
    forall c: Char | c in rest ensures c < last {
      var i :| 0 <= i < |rest| && s[i] == c;
    }
  }

  lemma {:induction false} SameLettersSameLabels(s: seq<Char>, t: seq<Char>)
    requires Ascends(s) && Ascends(t) && forall c: Char {:trigger c in s} {:trigger c in t} :: c in s <==> c in t
    ensures s == t
    decreases |s|
  {
    if t != [] {
      assert t[0] in t;
    }
    if s != [] {
      assert s[0] in s;
      var s', x := LargestLabel(s);
      var t', y := LargestLabel(t);
      assert x == y;
      SameLettersSameLabels(s', t');
    }
  }

  lemma AcceptsThrough(nodes: seq<Node>, q: nat, c: nat, v: Word) returns (w: Word)
    requires Shaped(nodes) && q < |nodes| && c < |nodes[q].labels|
    ensures w == [nodes[q].labels[c]] + v && (Accepts(nodes, q, w) <==> Accepts(nodes, nodes[q].children[c], v))
  {
    w := [nodes[q].labels[c]] + v;
    assert w[1..] == v;
    ByLabel(nodes, q, c, w);
  }

  lemma LabelIsShared(nodes: seq<Node>, register: map<Node, nat>, order: seq<nat>, i: nat, q: nat, c: nat)
    requires Shaped(nodes) && Registered(nodes, register, order) && i < |order| && q < |nodes| && order[i] < |nodes|
        && SameRight(nodes, order[i], q) && c < |nodes[order[i]].labels|
    ensures nodes[order[i]].labels[c] in nodes[q].labels
  {
    var j := ChildRank(nodes, register, order, i, c);
    var v := RegisteredIsLive(nodes, register, order, j);
    var w := AcceptsThrough(nodes, order[i], c, v);
    assert Accepts(nodes, q, w);
  }

  /** Registered states with the same right language are the same state. */
  lemma {:induction false} RegisteredDiffer(nodes: seq<Node>, register: map<Node, nat>, order: seq<nat>, i: nat, j: nat)
    requires Shaped(nodes) && Registered(nodes, register, order) && i < |order| && j < |order|
        && SameRight(nodes, order[i], order[j])
    ensures order[i] == order[j]
    decreases i + j
  {
    var q, p := order[i], order[j];
    assert Accepts(nodes, q, []) <==> Accepts(nodes, p, []);
    forall c ensures c in nodes[q].labels <==> c in nodes[p].labels {
      if k :| 0 <= k < |nodes[q].labels| && nodes[q].labels[k] == c {
        LabelIsShared(nodes, register, order, i, p, k);
      }
      if k :| 0 <= k < |nodes[p].labels| && nodes[p].labels[k] == c {
        LabelIsShared(nodes, register, order, j, q, k);
      }
    }
    SameLettersSameLabels(nodes[q].labels, nodes[p].labels);
    forall k | 0 <= k < |nodes[q].children| ensures nodes[q].children[k] == nodes[p].children[k] {
      var i' := ChildRank(nodes, register, order, i, k);
      var j' := ChildRank(nodes, register, order, j, k);
      forall w ensures Accepts(nodes, order[i'], w) <==> Accepts(nodes, order[j'], w) {
        var v := AcceptsThrough(nodes, q, k, w);
        var v' := AcceptsThrough(nodes, p, k, w);
        assert Accepts(nodes, q, v) <==> Accepts(nodes, p, v);
      }
      RegisteredDiffer(nodes, register, order, i', j');
    }
    assert nodes[q].children == nodes[p].children;
    assert nodes[q] == nodes[p];
  }

  // ----- the builder -----

  /** LEXICOGRAPHIC_ORDER: by the first character that differs, a prefix before its extensions. */
  predicate InOrder(u: Word, v: Word) {
    u == [] || (v != [] && (u[0] < v[0] || (u[0] == v[0] && InOrder(u[1..], v[1..]))))
  }

  /** InOrder is the lexicographic order: a prefix comes first, otherwise the first difference decides. */
  lemma {:induction false} InOrderIsLexicographic(u: Word, v: Word)
    ensures InOrder(u, v) <==>
      (|u| <= |v| && u == v[..|u|]) || exists i :: 0 <= i < |u| && i < |v| && u[..i] == v[..i] && u[i] < v[i]
    decreases |u|
  {
    if u != [] && v != [] {
      InOrderIsLexicographic(u[1..], v[1..]);
      if u[0] < v[0] {
        assert u[..0] == v[..0];
      }
      if u[0] == v[0] {
        OneCharacterMore(u, v);
      }
    }
  }

  lemma OneCharacterMore(u: Word, v: Word)
    requires u != [] && v != [] && u[0] == v[0]
    ensures (|u| <= |v| && u == v[..|u|]) <==> (|u[1..]| <= |v[1..]| && u[1..] == v[1..][..|u[1..]|])
    ensures (exists i :: 0 <= i < |u| && i < |v| && u[..i] == v[..i] && u[i] < v[i]) <==>
      exists i :: 0 <= i < |u[1..]| && i < |v[1..]| && u[1..][..i] == v[1..][..i] && u[1..][i] < v[1..][i]
  {
    assert u == [u[0]] + u[1..] && v == [v[0]] + v[1..];
    if |u| <= |v| {
      assert v[..|u|] == [v[0]] + v[1..][..|u| - 1];
    }
    if i :| 0 <= i < |u| && i < |v| && u[..i] == v[..i] && u[i] < v[i] {
      assert u[1..][..i - 1] == u[..i][1..] && v[1..][..i - 1] == v[..i][1..];
      assert u[1..][i - 1] < v[1..][i - 1];
    }
    if i :| 0 <= i < |u| - 1 && i < |v| - 1 && u[1..][..i] == v[1..][..i] && u[1..][i] < v[1..][i] {
      assert u[..i + 1] == [u[0]] + u[1..][..i] && v[..i + 1] == [v[0]] + v[1..][..i];
      assert u[i + 1] < v[i + 1];
    }
  }

  lemma {:induction false} InOrderAt(u: Word, v: Word, pos: nat)
    requires InOrder(u, v) && pos <= |u| && pos <= |v| && u[..pos] == v[..pos]
    ensures pos < |u| ==> pos < |v| && u[pos] <= v[pos]
    decreases pos
  {
    if pos > 0 {
      assert u[0] == u[..pos][0] && v[0] == v[..pos][0];
      assert u[1..][..pos - 1] == u[..pos][1..] && v[1..][..pos - 1] == v[..pos][1..];
      InOrderAt(u[1..], v[1..], pos - 1);
    }
  }

  class Builder {
    var nodes: seq<Node>
    var register: map<Node, nat>
    var previous: Word
    ghost var order: seq<nat>
    ghost var path: seq<nat>
    ghost var word: Word
    ghost var added: set<Word>

    /** The part of the invariant that also holds while a word is being added. */
    ghost predicate Sound()
      reads this
    {
      Building(nodes, register, order, path, word)
    }

    /** Between two calls of add: the open path spells the previous word and ends in a final leaf; the root accepts what
        was added. */
    ghost predicate Valid()
      reads this
    {
      && Sound() && word == previous && nodes[path[|word|]].labels == [] && (word != [] ==> nodes[path[|word|]].isFinal)
      && forall w :: Accepts(nodes, 0, w) <==> w in added
    }

    constructor ()
      ensures Valid() && previous == [] && added == {}
    {
      nodes, register, previous := [Node([], [], false)], map[], [];
      order, path, word, added := [], [0], [], {};
    }

    /** Registers the open states below state, or replaces them by equal registered ones, from the end of the path
        upwards. */
    method ReplaceOrRegister(state: nat, ghost i: nat)
      requires Sound() && i < |word| && state == path[i]
      requires nodes[path[|word|]].labels == [] && nodes[path[|word|]].isFinal
      modifies this`nodes, this`register, this`order, this`path, this`word
      ensures Sound() && path == old(path)[..i + 1] && word == old(word)[..i]
      ensures nodes[state].labels == old(nodes)[state].labels && nodes[state].isFinal == old(nodes)[state].isFinal
      ensures |nodes| == |old(nodes)| && forall w :: Accepts(nodes, 0, w) <==> Accepts(old(nodes), 0, w)
      ensures forall j {:trigger old(path)[j]} :: 0 <= j < i ==> nodes[old(path)[j]] == old(nodes)[old(path)[j]]
      decreases |word| - i
    {
      assert Continues(nodes[path[i]], word[i], path[i + 1]);
      ghost var path0, word0 := path, word;
      var child := nodes[state].children[|nodes[state].children| - 1];
      if nodes[child].labels != [] {
        ReplaceOrRegister(child, i + 1);
        assert path0[i] == state;
      } else {
        assert i + 1 < |word| ==> Continues(nodes[path[i + 1]], word[i + 1], path[i + 2]);
        assert path0[..i + 2] == path && word0[..i + 1] == word;
      }
      assert forall j {:trigger path[j]} {:trigger path0[j]} :: 0 <= j < i + 2 ==> path[j] == path0[j];
      Finish(state, child, i, path0, word0);
    }

    /** The last child of state, all of whose children are registered. */
    method Finish(state: nat, child: nat, ghost i: nat, ghost path0: seq<nat>, ghost word0: Word)
      requires Sound() && |path0| == |word0| + 1 && i < |word0| && path == path0[..i + 2] && word == word0[..i + 1]
          && state == path[i] && child == path[i + 1]
      requires nodes[child].isFinal || nodes[child].labels != []
      modifies this`nodes, this`register, this`order, this`path, this`word
      ensures Sound() && path == path0[..i + 1] && word == word0[..i]
      ensures nodes[state].labels == old(nodes)[state].labels && nodes[state].isFinal == old(nodes)[state].isFinal
      ensures |nodes| == |old(nodes)| && forall w :: Accepts(nodes, 0, w) <==> Accepts(old(nodes), 0, w)
      ensures forall j {:trigger old(path)[j]} :: 0 <= j < i ==> nodes[old(path)[j]] == old(nodes)[old(path)[j]]
    {
      assert path[..|word|] == path0[..i + 1] && word[..|word| - 1] == word0[..i];
      if nodes[child] in register {
        ReplaceChild(state, child);
      } else {
        RegisterChild(child);
      }
    }

    method ReplaceChild(state: nat, child: nat)
      requires Sound() && word != [] && child == path[|word|] && state == path[|word| - 1] && nodes[child] in register
      modifies this`nodes, this`path, this`word
      ensures Sound() && path == old(path)[..|old(word)|] && word == old(word)[..|old(word)| - 1]
      ensures |nodes| == |old(nodes)| && (forall q {:trigger nodes[q]} :: 0 <= q < |nodes| && q != state ==>
          nodes[q] == old(nodes)[q])
      ensures nodes[state].labels == old(nodes)[state].labels && nodes[state].isFinal == old(nodes)[state].isFinal
      ensures forall w :: Accepts(nodes, 0, w) <==> Accepts(old(nodes), 0, w)
    {
      ReplaceKeeps(nodes, register, order, path, word);
      forall w ensures Accepts(WithLastChild(nodes, state, register[nodes[child]]), 0, w) <==> Accepts(nodes, 0, w) {
        ReplaceChangesNothing(nodes, register, order, path, word, w);
      }
      nodes := WithLastChild(nodes, state, register[nodes[child]]);
      path, word := path[..|word|], word[..|word| - 1];
    }

    method RegisterChild(child: nat)
      requires Sound() && word != [] && child == path[|word|] && nodes[child] !in register
          && (nodes[child].isFinal || nodes[child].labels != [])
      modifies this`register, this`order, this`path, this`word
      ensures Sound() && path == old(path)[..|old(word)|] && word == old(word)[..|old(word)| - 1]
    {
      RegisterKeeps(nodes, register, order, path, word);
      register := register[nodes[child] := child];
      order := order + [child];
      path, word := path[..|word|], word[..|word| - 1];
    }

    /** The longest prefix of current that the open path spells. */
    method Descend(current: Word) returns (state: nat, pos: nat)
      requires Valid() && InOrder(previous, current)
      ensures pos <= |current| && pos <= |word| && state == path[pos] && current[..pos] == word[..pos]
      ensures pos < |word| ==> pos < |current| && word[pos] < current[pos]
    {
      state, pos := 0, 0;
      while pos < |current| && nodes[state].labels != [] && nodes[state].labels[|nodes[state].labels| - 1] ==
        current[pos]
        invariant pos <= |current| && pos <= |word| && state == path[pos] && current[..pos] == word[..pos]
      {
        assert pos < |word|;
        assert Continues(nodes[path[pos]], word[pos], path[pos + 1]);
        assert current[..pos + 1] == current[..pos] + [current[pos]] && word[..pos + 1] == word[..pos] + [word[pos]];
        state := nodes[state].children[|nodes[state].children| - 1];
        pos := pos + 1;
      }
      InOrderAt(previous, current, pos);
      assert pos < |word| ==> Continues(nodes[path[pos]], word[pos], path[pos + 1]);
    }

    /** A new last child under a label greater than all others. */
    method NewState(state: nat, c: Char) returns (child: nat)
      requires Sound() && state == path[|word|]
      requires forall i {:trigger nodes[state].labels[i]} :: 0 <= i < |nodes[state].labels| ==>
          nodes[state].labels[i] < c
      modifies this`nodes, this`path, this`word
      ensures Sound() && word == old(word) + [c] && child == path[|word|] && nodes[child].labels == []
      ensures forall w :: Accepts(nodes, 0, w) <==> Accepts(old(nodes), 0, w)
    {
      NewChildKeeps(nodes, register, order, path, word, c);
      forall w ensures Accepts(WithChild(nodes, state, c), 0, w) <==> Accepts(nodes, 0, w) {
        NewChildAddsNothing(nodes, register, order, path, word, c, w);
      }
      path, word := path + [|nodes|], word + [c];
      child, nodes := |nodes|, WithChild(nodes, state, c);
    }

    /** Appends the rest of the word, one new state for each character. */
    method AddSuffix(state0: nat, current: Word, fromIndex: nat)
      requires Sound() && fromIndex <= |current| && word == current[..fromIndex] && state0 == path[|word|]
      requires fromIndex < |current| ==> forall i {:trigger nodes[state0].labels[i]} ::
          0 <= i < |nodes[state0].labels| ==> nodes[state0].labels[i] < current[fromIndex]
      requires fromIndex == |current| ==> nodes[state0].labels == []
      modifies this`nodes, this`path, this`word
      ensures Sound() && word == current && nodes[path[|word|]].labels == [] && nodes[path[|word|]].isFinal
      ensures forall w :: Accepts(nodes, 0, w) <==> w == current || Accepts(old(nodes), 0, w)
    {
      var state := state0;
      ghost var nodes0 := nodes;
      for i := fromIndex to |current|
        invariant Sound() && word == current[..i] && state == path[|word|]
        invariant i < |current| ==> forall k {:trigger nodes[state].labels[k]} :: 0 <= k < |nodes[state].labels| ==>
            nodes[state].labels[k] < current[i]
        invariant i == |current| ==> nodes[state].labels == []
        invariant forall w :: Accepts(nodes, 0, w) <==> Accepts(nodes0, 0, w)
      {
        assert current[..i + 1] == current[..i] + [current[i]];
        state := NewState(state, current[i]);
      }
      assert current[..|current|] == current;
      FinalKeeps(nodes, register, order, path, word);
      forall w ensures Accepts(WithFinal(nodes, state), 0, w) <==> w == current || Accepts(nodes, 0, w) {
        FinalAddsWord(nodes, register, order, path, word, w);
      }
      nodes := WithFinal(nodes, state);
    }

    /** Adds a word that is not empty and not in front of the previous one. */
    method Add(current: Word)
      requires Valid() && current != [] && InOrder(previous, current)
      modifies this
      ensures Valid() && previous == current && added == old(added) + {current}
    {
      var state, pos := Descend(current);
      if nodes[state].labels != [] {
        Cut(state, pos, current);
      } else {
        OpenHasLabels(nodes, order, path, word, pos);
        assert word[..pos] == word;
      }
      AddSuffix(state, current, pos);
      previous := current;
      added := added + {current};
    }

    /** Closes the open path below the state where the new word leaves it. */
    method Cut(state: nat, pos: nat, ghost current: Word)
      requires Valid() && pos <= |word| && state == path[pos] && nodes[state].labels != [] && pos <= |current|
          && current[..pos] == word[..pos]
      requires pos < |word| ==> pos < |current| && word[pos] < current[pos]
      modifies this`nodes, this`register, this`order, this`path, this`word
      ensures Sound() && pos < |current| && word == current[..pos] && |word| == pos && path[pos] == state
      ensures forall i {:trigger nodes[state].labels[i]} :: 0 <= i < |nodes[state].labels| ==>
          nodes[state].labels[i] < current[pos]
      ensures forall w :: Accepts(nodes, 0, w) <==> w in added
    {
      assert pos < |word|;
      assert Continues(nodes[path[pos]], word[pos], path[pos + 1]);
      ReplaceOrRegister(state, pos);
    }

    /** Closes what is still open. Afterwards every state below the root is registered. */
    method Complete()
      requires Valid()
      modifies this
      ensures Sound() && word == [] && added == old(added) && forall w :: Accepts(nodes, 0, w) <==> w in added
    {
      assert path[0] == 0;
      if nodes[0].labels != [] {
        assert word != [];
        ReplaceOrRegister(0, 0);
      } else {
        OpenHasLabels(nodes, order, path, word, 0);
      }
    }
  }

  // ----- the result -----

  /** The root, or its rank among the registered states. */
  ghost function Rank(order: seq<nat>, q: nat): nat {
    if q in order then (var i :| 0 <= i < |order| && order[i] == q; i) else |order|
  }

  /** A complete automaton: the root is open, everything below it is registered. */
  ghost predicate IsComplete(nodes: seq<Node>, register: map<Node, nat>, order: seq<nat>) {
    Building(nodes, register, order, [0], [])
  }

  lemma ChildrenRank(nodes: seq<Node>, register: map<Node, nat>, order: seq<nat>, q: nat, c: nat)
    requires IsComplete(nodes, register, order) && (q == 0 || q in order) && q < |nodes| && c < |nodes[q].children|
    ensures nodes[q].children[c] in order && Rank(order, nodes[q].children[c]) < Rank(order, q)
  {
    var path := [0];
    if q in order {
      var i := Rank(order, q);
      var j := ChildRank(nodes, register, order, i, c);
      assert Rank(order, nodes[q].children[c]) == j;
    } else {
      assert nodes[path[0]].children[c] in order;
    }
  }

  /** The transitions made for the first i children of a state. */
  function PartRow(n: Node, i: nat): set<Transition> {
    set j | 0 <= j < i && j < |n.labels| && j < |n.children| :: Transition(n.labels[j], n.labels[j], n.children[j])
  }

  function Row(n: Node): set<Transition> {
    PartRow(n, |n.labels|)
  }

  lemma PartRowStep(n: Node, i: nat)
    requires i < |n.labels| == |n.children|
    ensures PartRow(n, i + 1) == PartRow(n, i) + {Transition(n.labels[i], n.labels[i], n.children[i])}
  {
  }

  ghost predicate ChildrenIn(n: Node, i: nat, s: set<State>) {
    forall j {:trigger n.children[j]} :: 0 <= j < i && j < |n.children| ==> n.children[j] in s
  }

  /** The states converted so far; the rows of those whose conversion has only begun are not yet complete. */
  ghost predicate Converted(nodes: seq<Node>, order: seq<nat>, begun: set<nat>, trans: map<State, set<Transition>>,
      accept: set<State>) {
    && (forall q {:trigger q in trans} :: q in trans ==>
         q < |nodes| && (q in accept <==> nodes[q].isFinal) && (q == 0 || q in order))
    && (forall q {:trigger trans[q]} :: q in trans && q !in begun ==>
         trans[q] == Row(nodes[q]) && ChildrenIn(nodes[q], |nodes[q].children|, trans.Keys))
    && accept <= trans.Keys && begun <= trans.Keys
  }

  ghost predicate Extends(q: nat, trans0: map<State, set<Transition>>, trans: map<State, set<Transition>>) {
    trans0.Keys <= trans.Keys && forall p {:trigger trans0[p]} :: p in trans0 && p != q ==> trans[p] == trans0[p]
  }

  /** The state q has got its first i transitions. */
  ghost predicate Halfway(nodes: seq<Node>, order: seq<nat>, q: nat, i: nat, begun: set<nat>, trans: map<State,
      set<Transition>>, accept: set<State>) {
    && q < |nodes| && q !in begun && Converted(nodes, order, begun + {q}, trans, accept)
    && q in trans && trans[q] == PartRow(nodes[q], i) && ChildrenIn(nodes[q], i, trans.Keys)
  }

  ghost predicate AllBelow(order: seq<nat>, q: nat, begun: set<nat>) {
    forall b {:trigger b in begun} :: b in begun ==> Rank(order, b) > Rank(order, q)
  }

  lemma StartHalfway(nodes: seq<Node>, order: seq<nat>, q: nat, begun: set<nat>, trans: map<State, set<Transition>>,
      accept: set<State>)
    requires Converted(nodes, order, begun, trans, accept) && q < |nodes| && (q == 0 || q in order) && q !in trans
    ensures Halfway(nodes, order, q, 0, begun, trans[q := {}], if nodes[q].isFinal then accept + {q} else accept)
    ensures Extends(q, trans, trans[q := {}])
  {
    assert PartRow(nodes[q], 0) == {};
    forall p | p in trans && p !in begun ensures ChildrenIn(nodes[p], |nodes[p].children|, trans[q := {}].Keys) {
      assert trans[p] == Row(nodes[p]);
    }
  }

  lemma OneMoreChild(nodes: seq<Node>, order: seq<nat>, q: nat, i: nat, begun: set<nat>, trans0: map<State,
      set<Transition>>, trans: map<State, set<Transition>>, accept: set<State>)
    requires Shaped(nodes) && q < |nodes| && q in trans0 && trans0[q] == PartRow(nodes[q], i)
        && ChildrenIn(nodes[q], i, trans0.Keys)
    requires Converted(nodes, order, begun + {q}, trans, accept) && q !in begun && i < |nodes[q].labels|
    requires trans0.Keys <= trans.Keys && trans[q] == trans0[q] && nodes[q].children[i] in trans
    ensures Halfway(nodes, order, q, i + 1, begun,
              trans[q := trans[q] + {Transition(nodes[q].labels[i], nodes[q].labels[i], nodes[q].children[i])}], accept)
  {
    PartRowStep(nodes[q], i);
    var trans' := trans[q := trans[q] + {Transition(nodes[q].labels[i], nodes[q].labels[i], nodes[q].children[i])}];
    assert trans'.Keys == trans.Keys;
    forall p | p in trans' && p !in begun + {q}
        ensures trans'[p] == Row(nodes[p]) && ChildrenIn(nodes[p], |nodes[p].children|, trans'.Keys)
    {
      assert trans'[p] == trans[p];
    }
  }

  lemma EndHalfway(nodes: seq<Node>, order: seq<nat>, q: nat, begun: set<nat>, trans: map<State, set<Transition>>,
      accept: set<State>)
    requires Shaped(nodes) && q < |nodes| && Halfway(nodes, order, q, |nodes[q].labels|, begun, trans, accept)
    ensures Converted(nodes, order, begun, trans, accept)
  {
  }

  /** Converts a state and all below it, once each. */
  method Convert(nodes: seq<Node>, ghost register: map<Node, nat>, ghost order: seq<nat>, q: nat, ghost begun: set<nat>,
      trans0: map<State, set<Transition>>, accept0: set<State>)
      returns (trans: map<State, set<Transition>>, accept: set<State>)
    requires IsComplete(nodes, register, order) && (q == 0 || q in order) && q < |nodes|
    requires Converted(nodes, order, begun, trans0, accept0) && AllBelow(order, q, begun)
    ensures Converted(nodes, order, begun, trans, accept) && q in trans && trans0.Keys <= trans.Keys
    ensures forall p {:trigger trans0[p]} :: p in trans0 ==> trans[p] == trans0[p]
    decreases Rank(order, q), 1
  {
    if q in trans0 {
      return trans0, accept0;
    }
    StartHalfway(nodes, order, q, begun, trans0, accept0);
    trans, accept := ConvertChildren(nodes, register, order, q, begun, trans0[q := {}], if nodes[q].isFinal
      then accept0 + {q} else accept0);
  }

  lemma ExtendsFurther(q: nat, trans0: map<State, set<Transition>>, trans1: map<State, set<Transition>>,
      trans2: map<State, set<Transition>>)
    requires Extends(q, trans0, trans1) && Extends(q, trans1, trans2)
    ensures Extends(q, trans0, trans2)
  {
  }

  method ConvertChild(nodes: seq<Node>, ghost register: map<Node, nat>, ghost order: seq<nat>, q: nat, i: nat,
      ghost begun: set<nat>, trans0: map<State, set<Transition>>, accept0: set<State>)
      returns (trans: map<State, set<Transition>>, accept: set<State>)
    requires IsComplete(nodes, register, order) && (q == 0 || q in order) && AllBelow(order, q, begun)
        && Halfway(nodes, order, q, i, begun, trans0, accept0) && i < |nodes[q].labels|
    ensures Halfway(nodes, order, q, i + 1, begun, trans, accept) && Extends(q, trans0, trans)
    decreases Rank(order, q), 0, 0
  {
    var n := nodes[q];
    ChildrenRank(nodes, register, order, q, i);
    assert AllBelow(order, n.children[i], begun + {q});
    trans, accept := Convert(nodes, register, order, n.children[i], begun + {q}, trans0, accept0);
    OneMoreChild(nodes, order, q, i, begun, trans0, trans, accept);
    trans := trans[q := trans[q] + {Transition(n.labels[i], n.labels[i], n.children[i])}];
  }

  method ConvertChildren(nodes: seq<Node>, ghost register: map<Node, nat>, ghost order: seq<nat>, q: nat,
      ghost begun: set<nat>, trans0: map<State, set<Transition>>, accept0: set<State>)
      returns (trans: map<State, set<Transition>>, accept: set<State>)
    requires IsComplete(nodes, register, order) && (q == 0 || q in order) && AllBelow(order, q, begun)
        && Halfway(nodes, order, q, 0, begun, trans0, accept0)
    ensures Converted(nodes, order, begun, trans, accept) && Extends(q, trans0, trans)
    decreases Rank(order, q), 0, 1
  {
    trans, accept := trans0, accept0;
    var n := nodes[q];
    for i := 0 to |n.labels|
      invariant Halfway(nodes, order, q, i, begun, trans, accept) && Extends(q, trans0, trans)
    {
      ghost var before := trans;
      trans, accept := ConvertChild(nodes, register, order, q, i, begun, trans, accept);
      ExtendsFurther(q, trans0, before, trans);
    }
    EndHalfway(nodes, order, q, begun, trans, accept);
  }

  /** The converted automaton has the right languages of the builder's states. */
  lemma {:induction false} ConvertedAccepts(nodes: seq<Node>, order: seq<nat>, trans: map<State, set<Transition>>,
      accept: set<State>, q: nat, w: Word)
    requires Shaped(nodes) && Converted(nodes, order, {}, trans, accept) && q in trans
    ensures Graph(0, accept, trans).Accepts(q, w) <==> Accepts(nodes, q, w)
    decreases |w|
  {
    var g := Graph(0, accept, trans);
    if w != [] {
      assert trans[q] == Row(nodes[q]);
      if i :| 0 <= i < |nodes[q].labels| && nodes[q].labels[i] == w[0] && Accepts(nodes, nodes[q].children[i], w[1..]) {
        var t := Transition(nodes[q].labels[i], nodes[q].labels[i], nodes[q].children[i]);
        assert t in trans[q] && t.Covers(w[0]);
        assert nodes[q].children[i] in g.Succ(q, w[0]);
        ConvertedAccepts(nodes, order, trans, accept, nodes[q].children[i], w[1..]);
      }
      if p :| p in g.Succ(q, w[0]) && g.Accepts(p, w[1..]) {
        var t :| t in g.Out(q) && t.Covers(w[0]) && t.to == p;
        var i :| 0 <= i < |nodes[q].labels| && i < |nodes[q].children|
          && t == Transition(nodes[q].labels[i], nodes[q].labels[i], nodes[q].children[i]);
        ConvertedAccepts(nodes, order, trans, accept, nodes[q].children[i], w[1..]);
      }
    }
  }

  // ----- build -----

  ghost predicate SortedWords(input: seq<Word>) {
    (forall i {:trigger input[i]} :: 0 <= i < |input| ==> input[i] != [])
      && (forall i {:trigger input[i]} :: 0 < i < |input| ==> InOrder(input[i - 1], input[i]))
  }

  lemma ConvertedIsValid(nodes: seq<Node>, order: seq<nat>, trans: map<State, set<Transition>>, accept: set<State>)
    requires Shaped(nodes) && Converted(nodes, order, {}, trans, accept) && 0 in trans
    ensures Graph(0, accept, trans).Valid() && Graph(0, accept, trans).Deterministic()
  {
    var g := Graph(0, accept, trans);
    forall q, t | q in trans && t in trans[q] ensures t.min <= t.max && t.to in trans {
      assert trans[q] == Row(nodes[q]);
      var j :| 0 <= j < |nodes[q].labels| && j < |nodes[q].children|
        && t == Transition(nodes[q].labels[j], nodes[q].labels[j], nodes[q].children[j]);
      assert nodes[q].children[j] in trans.Keys;
    }
    forall q, t, u | q in trans && t in trans[q] && u in trans[q] && t != u ensures t.max < u.min || u.max < t.min {
      assert trans[q] == Row(nodes[q]);
      var j :| 0 <= j < |nodes[q].labels| && j < |nodes[q].children|
        && t == Transition(nodes[q].labels[j], nodes[q].labels[j], nodes[q].children[j]);
      var k :| 0 <= k < |nodes[q].labels| && k < |nodes[q].children|
        && u == Transition(nodes[q].labels[k], nodes[q].labels[k], nodes[q].children[k]);
    }
  }

  /** The root's right language is that of no registered state: a word read to the registered state could be prepended
      without end. */
  lemma {:induction false} RootDiffers(nodes: seq<Node>, register: map<Node, nat>, order: seq<nat>, i: nat, u: Word,
      w: Word)
    requires IsComplete(nodes, register, order) && i < |order| && SameRight(nodes, 0, order[i]) && u != []
    requires forall v {:trigger Accepts(nodes, order[i], v)} :: Accepts(nodes, order[i], v) ==> Accepts(nodes, 0, u + v)
    requires Accepts(nodes, order[i], w)
    ensures false
    decreases |order| - |w|
  {
    RegisteredIsShort(nodes, register, order, i, w);
    RegisteredIsShort(nodes, register, order, i, u + w);
    RootDiffers(nodes, register, order, i, u, u + w);
  }

  /** After complete() no two reachable states have the same right language. */
  lemma ConvertedIsMinimal(nodes: seq<Node>, register: map<Node, nat>, order: seq<nat>, trans: map<State,
      set<Transition>>, accept: set<State>)
    requires IsComplete(nodes, register, order) && Converted(nodes, order, {}, trans, accept) && 0 in trans
    ensures Graph(0, accept, trans).Minimal()
  {
    var g := Graph(0, accept, trans);
    ConvertedIsValid(nodes, order, trans, accept);
    forall q, p | g.Reachable(q) && g.Reachable(p) && g.SameRight(q, p) ensures q == p {
      assert Closed(g, trans.Keys);
      forall w ensures Accepts(nodes, q, w) <==> Accepts(nodes, p, w) {
        ConvertedAccepts(nodes, order, trans, accept, q, w);
        ConvertedAccepts(nodes, order, trans, accept, p, w);
      }
      if q != 0 && p != 0 {
        var i :| 0 <= i < |order| && order[i] == q;
        var j :| 0 <= j < |order| && order[j] == p;
        RegisteredDiffer(nodes, register, order, i, j);
      } else if q != 0 {
        OnlyRoot(nodes, register, order, trans, accept, q);
      } else if p != 0 {
        OnlyRoot(nodes, register, order, trans, accept, p);
      }
    }
  }

  lemma OnlyRoot(nodes: seq<Node>, register: map<Node, nat>, order: seq<nat>, trans: map<State, set<Transition>>,
      accept: set<State>, p: nat)
    requires IsComplete(nodes, register, order) && Converted(nodes, order, {}, trans, accept) && 0 in trans
        && p in trans
    requires Graph(0, accept, trans).Valid() && Graph(0, accept, trans).Reachable(p)
    requires SameRight(nodes, 0, p)
    ensures p == 0
  {
    var g := Graph(0, accept, trans);
    if p != 0 {
      var i :| 0 <= i < |order| && order[i] == p;
      var u := ReachableByWord(g, p);
      forall v | Accepts(nodes, p, v) ensures Accepts(nodes, 0, u + v) {
        ConvertedAccepts(nodes, order, trans, accept, p, v);
        ReachesThenAccepts(g, 0, u, p, v);
        ConvertedAccepts(nodes, order, trans, accept, 0, u + v);
      }
      var w := RegisteredIsLive(nodes, register, order, i);
      RootDiffers(nodes, register, order, i, u, w);
    }
  }

  ghost predicate HoldsExactly(added: set<Word>, input: seq<Word>) {
    forall w {:trigger w in added} {:trigger w in input} :: w in added <==> w in input
  }

  lemma HoldsOneMore(added: set<Word>, input: seq<Word>, i: nat)
    requires i < |input| && HoldsExactly(added, input[..i])
    ensures HoldsExactly(added + {input[i]}, input[..i + 1])
  {
    assert input[..i + 1] == input[..i] + [input[i]];
  }

  method AddAll(builder: Builder, input: seq<Word>)
    requires SortedWords(input) && builder.Valid() && builder.previous == [] && builder.added == {}
    modifies builder
    ensures builder.Valid() && HoldsExactly(builder.added, input)
  {
    for i := 0 to |input|
      invariant builder.Valid()
      invariant builder.previous == if i == 0 then [] else input[i - 1]
      invariant HoldsExactly(builder.added, input[..i])
    {
      HoldsOneMore(builder.added, input, i);
      builder.Add(input[i]);
    }
    assert input[..|input|] == input;
  }

  method ConvertRoot(nodes: seq<Node>, ghost register: map<Node, nat>, ghost order: seq<nat>)
      returns (trans: map<State, set<Transition>>, accept: set<State>)
    requires IsComplete(nodes, register, order)
    ensures forall q {:trigger q in trans} :: q in trans ==> q < |nodes|
    ensures Graph(0, accept, trans).Valid() && Graph(0, accept, trans).Deterministic()
        && Graph(0, accept, trans).Minimal()
    ensures forall w :: Graph(0, accept, trans).Language(w) <==> Accepts(nodes, 0, w)
  {
    trans, accept := Convert(nodes, register, order, 0, {}, map[], {});
    ConvertedIsValid(nodes, order, trans, accept);
    ConvertedIsMinimal(nodes, register, order, trans, accept);
    forall w ensures Graph(0, accept, trans).Language(w) <==> Accepts(nodes, 0, w) {
      ConvertedAccepts(nodes, order, trans, accept, 0, w);
    }
  }

  /** A minimal deterministic automaton for exactly the words of a sorted list. */
  method Build(input: seq<Word>) returns (trans: map<State, set<Transition>>, accept: set<State>, next: nat)
    requires SortedWords(input)
    ensures forall q {:trigger q in trans} :: q in trans ==> q < next
    ensures Graph(0, accept, trans).Valid() && Graph(0, accept, trans).Deterministic()
        && Graph(0, accept, trans).Minimal()
    ensures forall w :: Graph(0, accept, trans).Language(w) <==> w in input
  {
    var builder := new Builder();
    AddAll(builder, input);
    builder.Complete();
    assert builder.path == [0];
    trans, accept := ConvertRoot(builder.nodes, builder.register, builder.order);
    next := |builder.nodes|;
  }

  // ----- makeStringUnion -----

  lemma {:induction false} InOrderIsTotal(u: Word, v: Word)
    ensures InOrder(u, v) || InOrder(v, u)
    decreases |u|
  {
    if u != [] && v != [] {
      InOrderIsTotal(u[1..], v[1..]);
    }
  }

  lemma SortedJoin(front: seq<Word>, back: seq<Word>)
    requires SortedWords(front) && SortedWords(back) && (front != [] && back != [] ==>
        InOrder(front[|front| - 1], back[0]))
    ensures SortedWords(front + back)
  {
    var all := front + back;
    forall i | 0 < i < |all| ensures InOrder(all[i - 1], all[i]) {
      if i < |front| {
        assert all[i] == front[i] && all[i - 1] == front[i - 1];
      } else if i > |front| {
        assert all[i] == back[i - |front|] && all[i - 1] == back[i - 1 - |front|];
      }
    }
  }

  /** Where a word belongs in a sorted list. */
  method InsertWord(sorted: seq<Word>, w: Word) returns (r: seq<Word>)
    requires SortedWords(sorted) && w != []
    ensures SortedWords(r) && forall v {:trigger v in r} :: v in r <==> v == w || v in sorted
  {
    var k := 0;
    while k < |sorted| && InOrder(sorted[k], w)
      invariant k <= |sorted| && (k > 0 ==> InOrder(sorted[k - 1], w))
    {
      k := k + 1;
    }
    if k < |sorted| {
      InOrderIsTotal(sorted[k], w);
    }
    var front, back := sorted[..k], sorted[k..];
    forall i | 0 < i < |back| ensures InOrder(back[i - 1], back[i]) {
      var _ := sorted[k + i];
    }
    SortedJoin(front, [w]);
    SortedJoin(front + [w], back);
    assert sorted == front + back;
    r := front + [w] + back;
  }

  method SortWords(strings: seq<Word>) returns (sorted: seq<Word>)
    requires forall w :: w in strings ==> w != []
    ensures SortedWords(sorted) && forall w {:trigger w in sorted} :: w in sorted <==> w in strings
  {
    sorted := [];
    for i := 0 to |strings|
      invariant SortedWords(sorted) && forall w {:trigger w in sorted} :: w in sorted <==> w in strings[..i]
    {
      assert strings[i] in strings;
      sorted := InsertWord(sorted, strings[i]);
    }
    assert strings[..|strings|] == strings;
  }

  /** A minimal deterministic automaton for a set of strings, in any order and with repetitions. */
  method MakeStringUnion(strings: seq<Word>) returns (a: Automaton)
    requires forall w :: w in strings ==> w != []
    ensures fresh(a) && a.Valid() && a.deterministic && a.Snapshot().Reduced() && a.Snapshot().Minimal()
    ensures forall w :: a.Snapshot().Language(w) <==> w in strings
  {
    if strings == [] {
      a := new Automaton();
      assert Closed(a.Snapshot(), {0});
      forall w ensures !a.Snapshot().Language(w) {
        Products.NoTransitionsNoWords(a.Snapshot(), w);
      }
      return;
    }
    var sorted := SortWords(strings);
    var trans, accept, next := Build(sorted);
    a := new Automaton.FromGraph(Graph(0, accept, trans), next, true);
    ghost var h := a.Snapshot();
    a.Reduce();
    Minimization.ReducedQuotient(h, a.Snapshot());
  }
}
