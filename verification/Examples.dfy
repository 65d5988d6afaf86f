/** The shortest example of an automaton: a breadth-first search that keeps one path for each state. */
module Examples {
  import opened Languages

  // ----- the order of examples: by length, then by the first character that differs -----

  /** compareTo of two words of the same length is not positive. */
  predicate AtMost(u: Word, v: Word)
    requires |u| == |v|
  {
    u == [] || u[0] < v[0] || (u[0] == v[0] && AtMost(u[1..], v[1..]))
  }

  predicate Precedes(u: Word, v: Word) {
    |u| < |v| || (|u| == |v| && AtMost(u, v))
  }

  /** u is v, shorter than v, or of the same length and smaller at the first place where they differ. */
  ghost predicate ComesFirst(u: Word, v: Word) {
    |u| < |v| || u == v || (|u| == |v| && exists i :: SmallerAt(u, v, i))
  }

  ghost predicate SmallerAt(u: Word, v: Word, i: int) {
    0 <= i < |u| && i < |v| && u[..i] == v[..i] && u[i] < v[i]
  }

  /** AtMost is the lexicographic order. */
  lemma {:induction false} AtMostIsLexicographic(u: Word, v: Word)
    requires |u| == |v|
    ensures AtMost(u, v) <==> u == v || exists i :: 0 <= i < |u| && u[..i] == v[..i] && u[i] < v[i]
    decreases |u|
  {
    if u != [] {
      AtMostIsLexicographic(u[1..], v[1..]);
      assert u == [u[0]] + u[1..] && v == [v[0]] + v[1..];
      if u[0] < v[0] {
        assert u[..0] == v[..0];
      }
      if i :| u[0] == v[0] && 0 <= i < |u| - 1 && u[1..][..i] == v[1..][..i] && u[1..][i] < v[1..][i] {
        assert u[..i + 1] == [u[0]] + u[1..][..i] && v[..i + 1] == [v[0]] + v[1..][..i];
        assert u[i + 1] < v[i + 1];
      }
      if i :| 0 <= i < |u| && u[..i] == v[..i] && u[i] < v[i] {
        if i > 0 {
          assert u[0] == u[..i][0] == v[..i][0] == v[0];
          assert u[1..][..i - 1] == u[..i][1..] && v[1..][..i - 1] == v[..i][1..];
          assert u[1..][i - 1] < v[1..][i - 1];
        }
      }
    }
  }

  lemma PrecedesIsFirst(u: Word, v: Word)
    ensures Precedes(u, v) <==> ComesFirst(u, v)
  {
    if |u| == |v| {
      AtMostIsLexicographic(u, v);
      if i :| 0 <= i < |u| && u[..i] == v[..i] && u[i] < v[i] {
        assert SmallerAt(u, v, i);
      }
    }
  }

  lemma {:induction false} PrecedesItself(u: Word)
    ensures Precedes(u, u)
  {
    if u != [] {
      PrecedesItself(u[1..]);
    }
  }

  lemma {:induction false} PrecedesThrough(u: Word, v: Word, w: Word)
    requires Precedes(u, v) && Precedes(v, w)
    ensures Precedes(u, w)
  {
    if |u| == |v| == |w| && u != [] && u[0] == v[0] == w[0] {
      PrecedesThrough(u[1..], v[1..], w[1..]);
    }
  }

  lemma {:induction false} PrecedesOneOrTheOther(u: Word, v: Word)
    ensures Precedes(u, v) || Precedes(v, u)
  {
    if |u| == |v| && u != [] && u[0] == v[0] {
      PrecedesOneOrTheOther(u[1..], v[1..]);
    }
  }

  /** Longer paths are ordered as their beginnings and their last characters are. */
  lemma {:induction false} PrecedesOneMore(u: Word, v: Word, c: Char, d: Char)
    requires Precedes(u, v) && c <= d
    ensures Precedes(u + [c], v + [d])
  {
    if |u| == |v| {
      if u == [] {
        assert u + [c] == [c] && v + [d] == [d];
      } else if u[0] == v[0] {
        PrecedesOneMore(u[1..], v[1..], c, d);
        assert (u + [c])[1..] == u[1..] + [c] && (v + [d])[1..] == v[1..] + [d];
      }
    }
  }

  // ----- the search -----

  /** The automaton without the transitions that leave accepting states: the search does not go on from them. */
  ghost function Cut(g: Graph): Graph {
    Graph(g.initial, g.accept, map q | q in g.trans :: if q in g.accept then {} else g.trans[q])
  }

  ghost predicate Follows(path: map<State, Word>, q: State, t: Transition) {
    q in path && t.to in path && Precedes(path[t.to], path[q] + [t.min])
  }

  /** The states already expanded. */
  ghost predicate Searched(g: Graph, path: map<State, Word>, queue: seq<State>) {
    && g.initial in path && path[g.initial] == []
    && (forall q {:trigger path[q]} :: q in path ==> q in g.trans && Cut(g).Reaches(g.initial, path[q], q))
    && (forall q :: q in queue ==> q in path)
    && Differ(queue)
    && (forall q, t {:trigger Follows(path, q, t)} :: q in path && q !in queue && q !in g.accept && t in g.trans[q] ==>
         Follows(path, q, t))
  }

  /** Path lengths along the queue: they grow by at most one, and what has been expanded is not longer. */
  ghost predicate Layered(path: map<State, Word>, queue: seq<State>) {
    && (forall q :: q in queue ==> q in path)
    && (forall i, j {:trigger queue[i], queue[j]} :: 0 <= i < j < |queue| ==> |path[queue[i]]| <= |path[queue[j]]|)
    && (queue != [] ==> forall q {:trigger path[q]} :: q in path ==>
          |path[q]| <= |path[queue[0]]| + 1 && (q !in queue ==> |path[q]| <= |path[queue[0]]|))
  }

  /** The turn of state q, with some of its transitions still to come. */
  ghost predicate Expanding(g: Graph, q: State, todo: set<Transition>, path: map<State, Word>, queue: seq<State>) {
    && q in path && q in g.trans && q !in queue && q !in g.accept && todo <= g.trans[q]
    && g.initial in path && path[g.initial] == []
    && (forall r {:trigger path[r]} :: r in path ==> r in g.trans && Cut(g).Reaches(g.initial, path[r], r))
    && (forall r :: r in queue ==> r in path)
    && Differ(queue)
    && (forall r, t {:trigger Follows(path, r, t)} ::
         r in path && r !in queue && r !in g.accept && t in g.trans[r] && !(r == q && t in todo) ==>
         Follows(path, r, t))
  }

  /** Everything met is at most one step farther than q, and what has been expanded is not farther. */
  ghost predicate Around(q: State, path: map<State, Word>, queue: seq<State>) {
    && q in path && (forall r :: r in queue ==> r in path)
    && (forall r {:trigger path[r]} :: r in path ==>
           |path[r]| <= |path[q]| + 1 && (r !in queue ==> |path[r]| <= |path[q]|)
           && (r in queue ==> |path[q]| <= |path[r]|))
    && (forall i, j {:trigger queue[i], queue[j]} :: 0 <= i < j < |queue| ==> |path[queue[i]]| <= |path[queue[j]]|)
  }

  ghost predicate Differ(queue: seq<State>) {
    forall i, j {:trigger queue[i], queue[j]} :: 0 <= i < j < |queue| ==> queue[i] != queue[j]
  }

  lemma HeadAndTail(queue: seq<State>)
    requires queue != [] && Differ(queue)
    ensures Differ(queue[1..]) && queue[0] !in queue[1..]
    ensures forall q :: q in queue <==> q == queue[0] || q in queue[1..]
  {
    assert queue == [queue[0]] + queue[1..];
  }

  lemma TailIsLayered(path: map<State, Word>, queue: seq<State>)
    requires queue != [] && Layered(path, queue) && Differ(queue)
    ensures Around(queue[0], path, queue[1..])
  {
    HeadAndTail(queue);
    var rest := queue[1..];
    forall i, j | 0 <= i < j < |rest| ensures |path[rest[i]]| <= |path[rest[j]]| {
      assert rest[i] == queue[i + 1] && rest[j] == queue[j + 1];
    }
    forall q | q in rest ensures |path[queue[0]]| <= |path[q]| {
      var i :| 0 <= i < |rest| && rest[i] == q;
      assert queue[i + 1] == q;
    }
  }

  lemma StartTurn(g: Graph, path: map<State, Word>, queue: seq<State>)
    requires Searched(g, path, queue) && queue != []
    ensures queue[0] in path && queue[0] in g.trans
    ensures queue[0] !in g.accept ==> Expanding(g, queue[0], g.trans[queue[0]], path, queue[1..])
    ensures queue[0] in g.accept ==> Searched(g, path, queue[1..])
  {
    HeadAndTail(queue);
    assert queue[0] in path;
  }

  lemma EndTurn(g: Graph, q: State, path: map<State, Word>, queue: seq<State>)
    requires Around(q, path, queue)
    ensures Layered(path, queue)
    ensures q !in g.accept && Expanding(g, q, {}, path, queue) ==> Searched(g, path, queue)
  {
  }

  predicate Improves(path: map<State, Word>, np: Word, to: State) {
    to !in path || (|path[to]| == |np| && AtMost(np, path[to]) && np != path[to])
  }

  /** One transition, when it leads somewhere new or by a path that comes first. */
  lemma TakeTransition(g: Graph, q: State, todo: set<Transition>, path: map<State, Word>, queue: seq<State>,
      t: Transition)
    requires g.Valid() && Expanding(g, q, todo, path, queue) && Around(q, path, queue) && t in todo
        && Improves(path, path[q] + [t.min], t.to)
    ensures Expanding(g, q, todo - {t}, path[t.to := path[q] + [t.min]], if t.to in path then queue else queue + [t.to])
    ensures Around(q, path[t.to := path[q] + [t.min]], if t.to in path then queue else queue + [t.to])
    ensures t.to in path ==> t.to in queue
  {
    var np := path[q] + [t.min];
    var path' := path[t.to := np];
    var queue' := if t.to in path then queue else queue + [t.to];
    assert Cut(g).trans[q] == g.trans[q];
    assert t.to in Cut(g).Succ(q, t.min);
    Farther(Cut(g), g.initial, path[q], q, t.min, t.to);
    assert t.to != q;
    forall r, u | r in path' && r !in queue' && r !in g.accept && u in g.trans[r] && !(r == q && u in todo - {t})
        ensures Follows(path', r, u)
    {
      if r == q && u == t {
        PrecedesItself(np);
      } else {
        assert Follows(path, r, u);
        if u.to == t.to {
          PrecedesThrough(np, path[t.to], path[r] + [u.min]);
        }
      }
    }
  }

  lemma SkipTransition(g: Graph, q: State, todo: set<Transition>, path: map<State, Word>, queue: seq<State>,
      t: Transition)
    requires Expanding(g, q, todo, path, queue) && Around(q, path, queue) && t in todo
        && !Improves(path, path[q] + [t.min], t.to)
    ensures Expanding(g, q, todo - {t}, path, queue)
  {
    var np := path[q] + [t.min];
    PrecedesOneOrTheOther(np, path[t.to]);
    PrecedesItself(np);
    assert Follows(path, q, t);
  }

  /** best is the first of the paths to the accepting states met and expanded. */
  ghost predicate IsBest(g: Graph, path: map<State, Word>, queue: seq<State>, best: Best) {
    && (best.None? ==> forall q :: q in path && q !in queue ==> q !in g.accept)
    && (best.Some? ==> exists q :: q in path && q in g.accept && q !in queue && path[q] == best.word)
    && (best.Some? ==> forall q {:trigger path[q]} :: q in path && q !in queue && q in g.accept ==>
         Precedes(best.word, path[q]))
  }

  datatype Best = None | Some(word: Word)

  lemma BestStays(g: Graph, path: map<State, Word>, queue: seq<State>, best: Best, np: Word, to: State)
    requires IsBest(g, path, queue, best) && (to in path ==> to in queue)
    ensures IsBest(g, path[to := np], if to in path then queue else queue + [to], best)
  {
    if best.Some? {
      var q :| q in path && q in g.accept && q !in queue && path[q] == best.word;
      assert q in path[to := np] && path[to := np][q] == best.word;
    }
  }

  /** The loop over the transitions of q. */
  method Expand(g: Graph, q: State, path0: map<State, Word>, queue0: seq<State>, ghost best: Best)
      returns (path: map<State, Word>, queue: seq<State>)
    requires g.Valid() && q in path0 && q in g.trans && Expanding(g, q, g.trans[q], path0, queue0)
        && Around(q, path0, queue0) && IsBest(g, path0, queue0, best)
    ensures Expanding(g, q, {}, path, queue) && Around(q, path, queue) && IsBest(g, path, queue, best)
    ensures path0.Keys <= path.Keys && (path.Keys == path0.Keys ==> queue == queue0)
  {
    path, queue := path0, queue0;
    var p := path[q];
    var todo := g.trans[q];
    while todo != {}
      invariant todo <= g.trans[q] && Expanding(g, q, todo, path, queue) && Around(q, path, queue) && path[q] == p
          && IsBest(g, path, queue, best)
      invariant path0.Keys <= path.Keys && (path.Keys == path0.Keys ==> queue == queue0)
    {
      var t :| t in todo;
      var np := p + [t.min];
      if t.to !in path || (|path[t.to]| == |np| && AtMost(np, path[t.to]) && np != path[t.to]) {
        TakeTransition(g, q, todo, path, queue, t);
        BestStays(g, path, queue, best, np, t.to);
        if t.to !in path {
          queue := queue + [t.to];
        }
        path := path[t.to := np];
      } else {
        SkipTransition(g, q, todo, path, queue, t);
      }
      todo := todo - {t};
    }
  }

  lemma AcceptingTurn(g: Graph, path: map<State, Word>, queue: seq<State>, best: Best, best': Best)
    requires Searched(g, path, queue) && queue != [] && IsBest(g, path, queue, best) && queue[0] in path
        && queue[0] in g.accept
    requires best' == if best.None? || Earlier(path[queue[0]], best.word) then Some(path[queue[0]]) else best
    ensures IsBest(g, path, queue[1..], best')
  {
    HeadAndTail(queue);
    var p := path[queue[0]];
    PrecedesItself(p);
    if best.Some? {
      PrecedesOneOrTheOther(p, best.word);
      if best' != best {
        forall q | q in path && q !in queue && q in g.accept ensures Precedes(p, path[q]) {
          PrecedesThrough(p, best.word, path[q]);
        }
      }
    }
  }

  /** The test on a new example: shorter, or of the same length and strictly in front. */
  predicate Earlier(u: Word, v: Word) {
    |u| < |v| || (|u| == |v| && AtMost(u, v) && u != v)
  }

  lemma OtherTurn(g: Graph, path: map<State, Word>, queue: seq<State>, best: Best)
    requires Searched(g, path, queue) && queue != [] && IsBest(g, path, queue, best) && queue[0] !in g.accept
    ensures IsBest(g, path, queue[1..], best)
  {
    HeadAndTail(queue);
  }

  /** Every word the cut automaton can read is preceded by the path of the state it leads to. */
  lemma {:induction false} PathsComeFirst(g: Graph, path: map<State, Word>, u: Word, q: State)
    requires g.Valid() && Searched(g, path, []) && Cut(g).Reaches(g.initial, u, q)
    ensures q in path && Precedes(path[q], u)
    decreases |u|
  {
    if u != [] {
      var v, c := u[..|u| - 1], u[|u| - 1];
      assert u == v + [c];
      var p := ReachesSplit(Cut(g), g.initial, v, c, q);
      PathsComeFirst(g, path, v, p);
      var t :| t in Cut(g).Out(p) && t.Covers(c) && t.to == q;
      assert Follows(path, p, t);
      PrecedesOneMore(path[p], v, t.min, c);
      PrecedesThrough(path[q], path[p] + [t.min], u);
    }
  }

  /** An accepted word has a prefix that the cut automaton reads to an accepting state. */
  lemma {:induction false} FirstAccepted(g: Graph, q: State, w: Word) returns (u: Word, r: State)
    requires g.Accepts(q, w)
    ensures |u| <= |w| && Cut(g).Reaches(q, u, r) && r in g.accept && (|u| == |w| ==> u == w)
    decreases |w|
  {
    if q in g.accept {
      u, r := [], q;
    } else {
      var p :| p in g.Succ(q, w[0]) && g.Accepts(p, w[1..]);
      var v;
      v, r := FirstAccepted(g, p, w[1..]);
      u := [w[0]] + v;
      assert u[1..] == v;
      assert p in Cut(g).Succ(q, w[0]);
    }
  }

  lemma {:induction false} CutReachesLess(g: Graph, q: State, u: Word, p: State)
    requires Cut(g).Reaches(q, u, p)
    ensures g.Reaches(q, u, p)
    decreases |u|
  {
    if u != [] {
      var r :| r in Cut(g).Succ(q, u[0]) && Cut(g).Reaches(r, u[1..], p);
      assert r in g.Succ(q, u[0]);
      CutReachesLess(g, r, u[1..], p);
    }
  }

  lemma BestIsFirst(g: Graph, path: map<State, Word>, best: Best, w: Word)
    requires g.Valid() && Searched(g, path, []) && IsBest(g, path, [], best) && g.Language(w)
    ensures best.Some? && Precedes(best.word, w)
  {
    var u, r := FirstAccepted(g, g.initial, w);
    PathsComeFirst(g, path, u, r);
    PrecedesItself(w);
    if best.Some? {
      PrecedesThrough(best.word, path[r], u);
      PrecedesThrough(best.word, u, w);
    }
  }

  lemma BestIsAccepted(g: Graph, path: map<State, Word>, best: Best)
    requires Searched(g, path, []) && IsBest(g, path, [], best) && best.Some?
    ensures g.Language(best.word)
  {
    var q :| q in path && q in g.accept && path[q] == best.word;
    CutReachesLess(g, g.initial, best.word, q);
    assert g.Accepts(q, []);
    ReachesThenAccepts(g, g.initial, best.word, q, []);
    assert best.word + [] == best.word;
  }

  /** The first of the shortest accepted words, or None when nothing is accepted. */
  method GetShortestExample(g: Graph) returns (best: Best)
    requires g.Valid()
    ensures best.Some? ==> g.Language(best.word)
    ensures forall w :: g.Language(w) ==> best.Some? && ComesFirst(best.word, w)
  {
    best := None;
    var path: map<State, Word>, queue: seq<State> := map[g.initial := []], [g.initial];
    while queue != []
      invariant Searched(g, path, queue) && Layered(path, queue) && IsBest(g, path, queue, best)
      decreases g.trans.Keys - path.Keys, |queue|
    {
      var q := queue[0];
      StartTurn(g, path, queue);
      TailIsLayered(path, queue);
      var p := path[q];
      if q in g.accept {
        AcceptingTurn(g, path, queue, best, if best.None? || Earlier(p, best.word) then Some(p) else best);
        if best.None? || Earlier(p, best.word) {
          best := Some(p);
        }
        queue := queue[1..];
      } else {
        OtherTurn(g, path, queue, best);
        path, queue := Expand(g, q, path, queue[1..], best);
      }
      EndTurn(g, q, path, queue);
    }
    forall w | g.Language(w) ensures best.Some? && ComesFirst(best.word, w) {
      BestIsFirst(g, path, best, w);
      PrecedesIsFirst(best.word, w);
    }
    if best.Some? {
      BestIsAccepted(g, path, best);
    }
  }
}
