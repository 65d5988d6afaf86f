/** The attractor of a finite game graph, computed with out-degree counters. */
module Attractors {
  import opened Counting

  /** preds[w] lists the sources of the edges into w, one entry for each edge; players[v] owns v. */
  datatype Arena = Arena(preds: seq<seq<nat>>, players: seq<int>) {
    function Size(): nat {
      |preds|
    }

    ghost predicate Valid() {
      && |players| == |preds|
      && forall w, i {:trigger preds[w][i]} :: 0 <= w < |preds| && 0 <= i < |preds[w]| ==> preds[w][i] < |preds|
    }

    ghost predicate Edge(v: nat, w: nat) {
      w < |preds| && v in preds[w]
    }
  }

  // ----- counting edges -----

  ghost function Occurrences(s: seq<nat>, v: nat): nat {
    if s == [] then 0 else Occurrences(s[..|s| - 1], v) + if s[|s| - 1] == v then 1 else 0
  }

  /** How many edges lead from v to the listed vertices, each counted as often as the vertex is listed. */
  ghost function Hits(a: Arena, checked: seq<nat>, v: nat): nat {
    if checked == [] then 0
    else
      var w := checked[|checked| - 1];
      Hits(a, checked[..|checked| - 1], v) + EdgeCount(a, v, w)
  }

  ghost function EdgeCount(a: Arena, v: nat, w: nat): nat {
    if w < a.Size() then Occurrences(a.preds[w], v) else 0
  }

  ghost function UpTo(n: nat): seq<nat> {
    if n == 0 then [] else UpTo(n - 1) + [n - 1]
  }

  ghost function OutDegree(a: Arena, v: nat): nat {
    Hits(a, UpTo(a.Size()), v)
  }

  lemma {:induction false} OccursIffIn(s: seq<nat>, v: nat)
    ensures Occurrences(s, v) > 0 <==> v in s
  {
    if s != [] {
      OccursIffIn(s[..|s| - 1], v);
      assert s == s[..|s| - 1] + [s[|s| - 1]];
    }
  }

  lemma CountIffEdge(a: Arena, v: nat, w: nat)
    ensures EdgeCount(a, v, w) > 0 <==> a.Edge(v, w)
  {
    if w < a.Size() {
      OccursIffIn(a.preds[w], v);
    }
  }

  lemma {:induction false} HitsIffEdge(a: Arena, checked: seq<nat>, v: nat)
    ensures Hits(a, checked, v) > 0 <==> exists w: nat :: w in checked && a.Edge(v, w)
  {
    if checked != [] {
      var w, rest := checked[|checked| - 1], checked[..|checked| - 1];
      HitsIffEdge(a, rest, v);
      assert checked == rest + [w];
      CountIffEdge(a, v, w);
    }
  }

  // ----- the attractor -----

  /** Nothing is attracted any more: the player has no edge into s from outside, the opponent has no vertex outside all
      of whose edges, of which there are some, lead into s. */
  ghost predicate IsClosed(a: Arena, player: int, s: set<nat>)
    requires a.Valid()
  {
    && (forall v: nat, w: nat {:trigger a.Edge(v, w)} ::
         v < a.Size() && a.Edge(v, w) && w in s && a.players[v] == player ==> v in s)
    && (forall v: nat {:trigger Trapped(a, s, v)} :: v < a.Size() && a.players[v] != player && Trapped(a, s, v) ==>
         v in s)
  }

  ghost predicate Trapped(a: Arena, s: set<nat>, v: nat) {
    (exists w: nat :: a.Edge(v, w)) && forall w: nat {:trigger a.Edge(v, w)} :: a.Edge(v, w) ==> w in s
  }

  /** The least closed set that holds the targets. */
  ghost predicate InAttractor(a: Arena, player: int, f: seq<nat>, v: nat)
    requires a.Valid()
  {
    v < a.Size() && forall s {:trigger IsClosed(a, player, s)} ::
      IsClosed(a, player, s) && (forall t: nat :: t in f ==> t in s) ==> v in s
  }

  /** The vertices attracted in at most r rounds. */
  ghost function Layer(a: Arena, player: int, f: seq<nat>, r: nat): set<nat>
    requires a.Valid()
  {
    if r == 0 then set t | t in f
    else
      var s := Layer(a, player, f, r - 1);
      s + set v: nat | v in Numbers(a.Size()) && Attracted(a, player, s, v)
  }

  ghost predicate Attracted(a: Arena, player: int, s: set<nat>, v: nat)
    requires a.Valid()
  {
    v < a.Size() && if a.players[v] == player then exists w: nat :: a.Edge(v, w) && w in s else Trapped(a, s, v)
  }

  // ----- what the rounds of the algorithm check -----

  ghost function Flat(rounds: seq<seq<nat>>): seq<nat> {
    if rounds == [] then [] else Flat(rounds[..|rounds| - 1]) + rounds[|rounds| - 1]
  }

  /** The counter of v reaches 0 while the frontier is checked, checked being what was checked before. */
  ghost predicate RunsOut(a: Arena, checked: seq<nat>, frontier: seq<nat>, v: nat) {
    0 < OutDegree(a, v) && Hits(a, checked, v) < OutDegree(a, v) <= Hits(a, checked + frontier, v)
  }

  /** How often v is listed in the frontier that follows. */
  ghost function Listed(a: Arena, player: int, checked: seq<nat>, frontier: seq<nat>, v: nat): nat
    requires a.Valid()
  {
    if v >= a.Size() || v in checked + frontier then 0
    else if a.players[v] == player then Hits(a, frontier, v)
    else if RunsOut(a, checked, frontier, v) then 1 else 0
  }

  ghost predicate Follows(a: Arena, player: int, checked: seq<nat>, frontier: seq<nat>, next: seq<nat>)
    requires a.Valid()
  {
    forall v: nat {:trigger Occurrences(next, v)} :: Occurrences(next, v) == Listed(a, player, checked, frontier, v)
  }

  /** The frontiers of a run: the targets, then in each round what the counters and the player's edges add. */
  ghost predicate IsRun(a: Arena, player: int, f: seq<nat>, rounds: seq<seq<nat>>)
    requires a.Valid()
  {
    && rounds != [] && rounds[0] == f && (forall t :: t in f ==> t < a.Size())
    && forall r {:trigger rounds[r]} :: 1 <= r < |rounds| ==>
         Follows(a, player, Flat(rounds[..r - 1]), rounds[r - 1], rounds[r])
  }

  lemma {:induction false} HitsConcat(a: Arena, c: seq<nat>, d: seq<nat>, v: nat)
    ensures Hits(a, c + d, v) == Hits(a, c, v) + Hits(a, d, v)
    decreases |d|
  {
    if d == [] {
      assert c + d == c;
    } else {
      HitsConcat(a, c, d[..|d| - 1], v);
      assert (c + d)[..|c + d| - 1] == c + d[..|d| - 1];
    }
  }

  lemma RunPrefix(a: Arena, player: int, f: seq<nat>, rounds: seq<seq<nat>>)
    requires a.Valid() && IsRun(a, player, f, rounds) && |rounds| > 1
    ensures IsRun(a, player, f, rounds[..|rounds| - 1])
    ensures Follows(a, player, Flat(rounds[..|rounds| - 2]), rounds[|rounds| - 2], rounds[|rounds| - 1])
    ensures Flat(rounds[..|rounds| - 1]) == Flat(rounds[..|rounds| - 2]) + rounds[|rounds| - 2]
  {
    var last := |rounds| - 1;
    var front := rounds[..last];
    forall r | 1 <= r < |front| ensures Follows(a, player, Flat(front[..r - 1]), front[r - 1], front[r]) {
      assert front[..r - 1] == rounds[..r - 1] && front[r] == rounds[r];
    }
    assert front[..last - 1] == rounds[..last - 1];
    var _ := rounds[last];
  }

  /** Being met in a run: the player's vertices by an edge into what has been checked, the opponent's by a counter that
      has run out. */
  ghost predicate Met(a: Arena, player: int, f: seq<nat>, checked: seq<nat>, v: nat)
    requires a.Valid() && v < a.Size()
  {
    v in f || if a.players[v] == player then Hits(a, checked, v) > 0 else 0 < OutDegree(a, v) <= Hits(a, checked, v)
  }

  lemma {:induction false} RunMeets(a: Arena, player: int, f: seq<nat>, rounds: seq<seq<nat>>, v: nat)
    requires a.Valid() && IsRun(a, player, f, rounds) && v < a.Size()
    ensures v in Flat(rounds) <==> Met(a, player, f, Flat(rounds[..|rounds| - 1]), v)
    decreases |rounds|
  {
    var last := |rounds| - 1;
    if last == 0 {
      assert Flat(rounds[..0]) == [];
      assert Flat(rounds) == Flat(rounds[..0]) + f;
    } else {
      RunPrefix(a, player, f, rounds);
      RunMeets(a, player, f, rounds[..last], v);
      var checked, frontier := Flat(rounds[..last - 1]), rounds[last - 1];
      assert rounds[..last][..last - 1] == rounds[..last - 1];
      HitsConcat(a, checked, frontier, v);
      OccursIffIn(rounds[last], v);
    }
  }

  lemma {:induction false} RunInside(a: Arena, player: int, f: seq<nat>, rounds: seq<seq<nat>>, v: nat)
    requires a.Valid() && IsRun(a, player, f, rounds) && v in Flat(rounds)
    ensures v < a.Size()
    decreases |rounds|
  {
    var last := |rounds| - 1;
    if last == 0 {
      assert Flat(rounds[..0]) == [];
    } else {
      RunPrefix(a, player, f, rounds);
      if v in rounds[last] {
        OccursIffIn(rounds[last], v);
      } else {
        RunInside(a, player, f, rounds[..last], v);
      }
    }
  }

  // ----- all edges -----

  lemma {:induction false} UpToHolds(n: nat, w: nat)
    ensures w in UpTo(n) <==> w < n
  {
    if n > 0 {
      UpToHolds(n - 1, w);
    }
  }

  lemma DegreeIffEdge(a: Arena, v: nat)
    ensures OutDegree(a, v) > 0 <==> exists w: nat :: a.Edge(v, w)
  {
    HitsIffEdge(a, UpTo(a.Size()), v);
    if w: nat :| a.Edge(v, w) {
      UpToHolds(a.Size(), w);
    }
  }

  lemma HitsOne(a: Arena, w: nat, v: nat)
    ensures Hits(a, [w], v) == EdgeCount(a, v, w)
  {
    assert [w][..0] == [];
  }

  /** Removing one entry takes the edges to it away. */
  lemma RemoveAt(a: Arena, s: seq<nat>, i: nat, v: nat) returns (rest: seq<nat>)
    requires i < |s|
    ensures rest == s[..i] + s[i + 1..] && Hits(a, s, v) == Hits(a, rest, v) + EdgeCount(a, v, s[i])
    ensures forall u :: u in s && u != s[i] ==> u in rest
    ensures forall u :: u in rest ==> u in s
    ensures Distinct(s) ==> Distinct(rest) && s[i] !in rest
  {
    rest := s[..i] + s[i + 1..];
    assert s == s[..i] + [s[i]] + s[i + 1..];
    HitsConcat(a, s[..i] + [s[i]], s[i + 1..], v);
    HitsConcat(a, s[..i], [s[i]], v);
    HitsConcat(a, s[..i], s[i + 1..], v);
    HitsOne(a, s[i], v);
  }

  lemma UpToOneMore(a: Arena, n: nat, v: nat)
    requires n > 0
    ensures Hits(a, UpTo(n), v) == Hits(a, UpTo(n - 1), v) + EdgeCount(a, v, n - 1)
  {
    assert UpTo(n)[..|UpTo(n)| - 1] == UpTo(n - 1);
  }

  /** Checking every target of v's edges hits v at least as often as it has edges. */
  lemma {:induction false} CoveringHits(a: Arena, n: nat, checked: seq<nat>, v: nat)
    requires forall w: nat {:trigger a.Edge(v, w)} :: w < n && a.Edge(v, w) ==> w in checked
    ensures Hits(a, checked, v) >= Hits(a, UpTo(n), v)
    decreases n
  {
    if n > 0 {
      var w := n - 1;
      UpToOneMore(a, n, v);
      CountIffEdge(a, v, w);
      if a.Edge(v, w) {
        var i :| 0 <= i < |checked| && checked[i] == w;
        var rest := RemoveAt(a, checked, i, v);
        CoveringHits(a, n - 1, rest, v);
      } else {
        CoveringHits(a, n - 1, checked, v);
      }
    }
  }

  ghost predicate Distinct(s: seq<nat>) {
    forall i, j {:trigger s[i], s[j]} :: 0 <= i < j < |s| ==> s[i] != s[j]
  }

  lemma {:induction false} FewerHits(a: Arena, n: nat, checked: seq<nat>, v: nat)
    requires Distinct(checked) && forall u :: u in checked ==> u < n
    ensures Hits(a, checked, v) <= Hits(a, UpTo(n), v)
    decreases n
  {
    if checked != [] {
      assert checked[0] in checked;
      UpToOneMore(a, n, v);
      if i :| 0 <= i < |checked| && checked[i] == n - 1 {
        var rest := RemoveAt(a, checked, i, v);
        FewerHits(a, n - 1, rest, v);
      } else {
        FewerHits(a, n - 1, checked, v);
      }
    }
  }

  /** When every vertex is checked at most once, as many hits as edges mean that all targets have been checked. */
  lemma {:induction false} ExactHits(a: Arena, n: nat, checked: seq<nat>, v: nat, w: nat)
    requires Distinct(checked) && Hits(a, checked, v) >= Hits(a, UpTo(n), v) && (forall u :: u in checked ==> u < n)
        && w < n && a.Edge(v, w)
    ensures w in checked
    decreases n
  {
    UpToOneMore(a, n, v);
    CountIffEdge(a, v, w);
    if i :| 0 <= i < |checked| && checked[i] == n - 1 {
      if w < n - 1 {
        var rest := RemoveAt(a, checked, i, v);
        ExactHits(a, n - 1, rest, v, w);
      }
    } else {
      FewerHits(a, n - 1, checked, v);
      if w < n - 1 {
        ExactHits(a, n - 1, checked, v, w);
      }
    }
  }

  // ----- what a run marks -----

  ghost predicate Holds(s: seq<nat>, t: set<nat>) {
    forall v: nat {:trigger v in s} :: v in s ==> v in t
  }

  /** What is attracted to vertices that have been checked has been met. */
  lemma CheckedAttract(a: Arena, player: int, f: seq<nat>, checked: seq<nat>, s: set<nat>, v: nat)
    requires a.Valid() && (forall w: nat {:trigger w in s} :: w in s ==> w in checked) && Attracted(a, player, s, v)
    ensures Met(a, player, f, checked, v)
  {
    if a.players[v] == player {
      var w: nat :| a.Edge(v, w) && w in s;
      HitsIffEdge(a, checked, v);
    } else {
      DegreeIffEdge(a, v);
      CoveringHits(a, a.Size(), checked, v);
    }
  }

  /** A run that has ended with nothing new marks a closed set. */
  lemma EndedRunIsClosed(a: Arena, player: int, f: seq<nat>, rounds: seq<seq<nat>>)
    requires a.Valid() && IsRun(a, player, f, rounds) && rounds[|rounds| - 1] == []
    ensures IsClosed(a, player, set v | v in Flat(rounds))
  {
    var last := |rounds| - 1;
    var s := set v | v in Flat(rounds);
    assert Flat(rounds) == Flat(rounds[..last]) + rounds[last];
    forall v: nat, w: nat | v < a.Size() && a.Edge(v, w) && w in s && a.players[v] == player ensures v in s {
      assert Attracted(a, player, s, v);
      CheckedAttract(a, player, f, Flat(rounds[..last]), s, v);
      RunMeets(a, player, f, rounds, v);
    }
    forall v: nat | v < a.Size() && a.players[v] != player && Trapped(a, s, v) ensures v in s {
      CheckedAttract(a, player, f, Flat(rounds[..last]), s, v);
      RunMeets(a, player, f, rounds, v);
    }
  }

  /** Nothing of the attractor is missed, whatever the targets and the edges. */
  lemma RunCoversAttractor(a: Arena, player: int, f: seq<nat>, rounds: seq<seq<nat>>, v: nat)
    requires a.Valid() && IsRun(a, player, f, rounds) && rounds[|rounds| - 1] == [] && InAttractor(a, player, f, v)
    ensures v in Flat(rounds)
  {
    EndedRunIsClosed(a, player, f, rounds);
    forall t: nat | t in f ensures t in Flat(rounds) {
      RunHoldsTargets(a, player, f, rounds, t);
    }
  }

  lemma {:induction false} RunHoldsTargets(a: Arena, player: int, f: seq<nat>, rounds: seq<seq<nat>>, t: nat)
    requires a.Valid() && IsRun(a, player, f, rounds) && t in f
    ensures t in Flat(rounds)
    decreases |rounds|
  {
    if |rounds| > 1 {
      RunPrefix(a, player, f, rounds);
      RunHoldsTargets(a, player, f, rounds[..|rounds| - 1], t);
    } else {
      assert Flat(rounds) == Flat(rounds[..0]) + rounds[0];
    }
  }

  /** After r rounds everything attracted in at most r rounds is marked. */
  lemma {:induction false} RunCoversLayer(a: Arena, player: int, f: seq<nat>, rounds: seq<seq<nat>>, v: nat)
    requires a.Valid() && IsRun(a, player, f, rounds) && v in Layer(a, player, f, |rounds| - 1)
    ensures v in Flat(rounds)
    decreases |rounds|
  {
    var r := |rounds| - 1;
    if r == 0 {
      assert Flat(rounds) == Flat(rounds[..0]) + rounds[0];
    } else {
      RunPrefix(a, player, f, rounds);
      var s := Layer(a, player, f, r - 1);
      forall w: nat | w in s ensures w in Flat(rounds[..r]) {
        RunCoversLayer(a, player, f, rounds[..r], w);
      }
      assert Flat(rounds) == Flat(rounds[..r]) + rounds[r];
      if v !in s {
        CheckedAttract(a, player, f, Flat(rounds[..r]), s, v);
        RunMeets(a, player, f, rounds, v);
      }
    }
  }

  /** No vertex has been checked twice: then nothing outside a closed set is marked. */
  lemma {:induction false} DistinctRunStaysInside(a: Arena, player: int, f: seq<nat>, rounds: seq<seq<nat>>,
      s: set<nat>, v: nat)
    requires a.Valid() && IsRun(a, player, f, rounds) && Distinct(Flat(rounds[..|rounds| - 1])) && v in Flat(rounds)
    requires IsClosed(a, player, s) && forall t: nat :: t in f ==> t in s
    ensures v in s
    decreases |rounds|
  {
    var r := |rounds| - 1;
    RunInside(a, player, f, rounds, v);
    RunMeets(a, player, f, rounds, v);
    if v !in f {
      var checked := Flat(rounds[..r]);
      assert r > 0 by {
        assert Flat(rounds[..0]) == [];
      }
      RunPrefix(a, player, f, rounds);
      forall w: nat | w in checked ensures w in s && w < a.Size() {
        assert Distinct(Flat(rounds[..r][..r - 1])) by {
          assert rounds[..r][..r - 1] == rounds[..r - 1];
          DistinctPrefix(Flat(rounds[..r - 1]), rounds[r - 1]);
        }
        DistinctRunStaysInside(a, player, f, rounds[..r], s, w);
        RunInside(a, player, f, rounds[..r], w);
      }
      if a.players[v] == player {
        HitsIffEdge(a, checked, v);
      } else {
        DegreeIffEdge(a, v);
        forall w: nat | a.Edge(v, w) ensures w in s {
          ExactHits(a, a.Size(), checked, v, w);
        }
        assert Trapped(a, s, v);
      }
    }
  }

  lemma DistinctPrefix(c: seq<nat>, d: seq<nat>)
    requires Distinct(c + d)
    ensures Distinct(c)
  {
    assert forall i {:trigger c[i]} :: 0 <= i < |c| ==> c[i] == (c + d)[i];
  }

  /** A run that checks no vertex twice marks exactly the attractor. */
  lemma DistinctRunIsExact(a: Arena, player: int, f: seq<nat>, rounds: seq<seq<nat>>, v: nat)
    requires a.Valid() && IsRun(a, player, f, rounds) && rounds[|rounds| - 1] == []
        && Distinct(Flat(rounds[..|rounds| - 1]))
    ensures v in Flat(rounds) <==> InAttractor(a, player, f, v)
  {
    if InAttractor(a, player, f, v) {
      RunCoversAttractor(a, player, f, rounds, v);
    }
    if v in Flat(rounds) {
      RunInside(a, player, f, rounds, v);
      forall s | IsClosed(a, player, s) && forall t: nat :: t in f ==> t in s ensures v in s {
        DistinctRunStaysInside(a, player, f, rounds, s, v);
      }
    }
  }

  // ----- when the marks are exact -----

  lemma AttractorIsClosed(a: Arena, player: int, f: seq<nat>, s: set<nat>, v: nat)
    requires a.Valid() && (forall w: nat {:trigger w in s} :: w in s ==> InAttractor(a, player, f, w))
        && Attracted(a, player, s, v)
    ensures InAttractor(a, player, f, v)
  {
    forall c | IsClosed(a, player, c) && forall t: nat :: t in f ==> t in c ensures v in c {
      if a.players[v] == player {
        var w: nat :| a.Edge(v, w) && w in s;
      } else {
        assert Trapped(a, c, v);
      }
    }
  }

  /** The counter of v has been decremented at least as often as v has edges. */
  ghost predicate Overcounted(a: Arena, player: int, checked: seq<nat>, v: nat)
    requires a.Valid()
  {
    v < a.Size() && a.players[v] != player && 0 < OutDegree(a, v) <= Hits(a, checked, v)
  }

  lemma {:induction false} FlatGrows(a: Arena, rounds: seq<seq<nat>>, i: nat, j: nat, v: nat)
    requires i <= j <= |rounds|
    ensures Hits(a, Flat(rounds[..i]), v) <= Hits(a, Flat(rounds[..j]), v)
    decreases j
  {
    if i < j {
      FlatGrows(a, rounds, i, j - 1, v);
      assert rounds[..j][..j - 1] == rounds[..j - 1];
      HitsConcat(a, Flat(rounds[..j - 1]), rounds[j - 1], v);
    }
  }

  /** The first k rounds mark nothing outside the attractor. */
  lemma {:induction false} OnlyAttracted(a: Arena, player: int, f: seq<nat>, rounds: seq<seq<nat>>, k: nat, v: nat)
    requires a.Valid() && 0 < k <= |rounds| && IsRun(a, player, f, rounds[..k]) && v in Flat(rounds[..k])
    requires forall u: nat {:trigger Overcounted(a, player, Flat(rounds), u)} ::
        Overcounted(a, player, Flat(rounds), u) ==> InAttractor(a, player, f, u)
    ensures InAttractor(a, player, f, v)
    decreases k
  {
    var part := rounds[..k];
    RunInside(a, player, f, part, v);
    RunMeets(a, player, f, part, v);
    assert part[..k - 1] == rounds[..k - 1];
    if v !in f {
      var checked := Flat(rounds[..k - 1]);
      if a.players[v] == player {
        HitsIffEdge(a, checked, v);
        var w: nat :| w in checked && a.Edge(v, w);
        EarlierRound(a, player, f, rounds, k, w);
        OnlyAttracted(a, player, f, rounds, k - 1, w);
        AttractorIsClosed(a, player, f, {w}, v);
      } else {
        FlatGrows(a, rounds, k - 1, |rounds|, v);
        assert rounds[..|rounds|] == rounds;
        assert Overcounted(a, player, Flat(rounds), v);
      }
    }
  }

  lemma EarlierRound(a: Arena, player: int, f: seq<nat>, rounds: seq<seq<nat>>, k: nat, w: nat)
    requires a.Valid() && 0 < k <= |rounds| && IsRun(a, player, f, rounds[..k]) && w in Flat(rounds[..k - 1])
    ensures k > 1 && IsRun(a, player, f, rounds[..k - 1])
  {
    assert Flat(rounds[..0]) == [];
    RunPrefix(a, player, f, rounds[..k]);
    assert rounds[..k][..k - 1] == rounds[..k - 1];
  }

  /** The unbounded run marks exactly the attractor if and only if no counter of an opponent's vertex outside the
      attractor runs out. */
  lemma ExactIffNotOvercounted(a: Arena, player: int, f: seq<nat>, rounds: seq<seq<nat>>)
    requires a.Valid() && IsRun(a, player, f, rounds) && rounds[|rounds| - 1] == []
    ensures (forall v: nat {:trigger v in Flat(rounds)} :: v in Flat(rounds) <==> InAttractor(a, player, f, v))
      <==> forall v: nat {:trigger Overcounted(a, player, Flat(rounds), v)} ::
        Overcounted(a, player, Flat(rounds), v) ==> InAttractor(a, player, f, v)
  {
    var last := |rounds| - 1;
    assert Flat(rounds) == Flat(rounds[..last]) + rounds[last] == Flat(rounds[..last]);
    if forall v: nat {:trigger v in Flat(rounds)} :: v in Flat(rounds) <==> InAttractor(a, player, f, v) {
      forall v: nat | Overcounted(a, player, Flat(rounds), v) ensures InAttractor(a, player, f, v) {
        RunMeets(a, player, f, rounds, v);
        assert v in Flat(rounds);
      }
    }
    if forall v: nat {:trigger Overcounted(a, player, Flat(rounds), v)} :: Overcounted(a, player, Flat(rounds), v) ==>
        InAttractor(a, player, f, v) {
      forall v: nat ensures v in Flat(rounds) <==> InAttractor(a, player, f, v) {
        if InAttractor(a, player, f, v) {
          RunCoversAttractor(a, player, f, rounds, v);
        }
        if v in Flat(rounds) {
          assert rounds[..|rounds|] == rounds;
          OnlyAttracted(a, player, f, rounds, |rounds|, v);
        }
      }
    }
  }

  // ----- how often a vertex is listed, told from the arena alone -----

  /** How many edges lead from v to the first n vertices, each counted as often as m says. */
  ghost function CountHits(a: Arena, m: nat -> nat, n: nat, v: nat): nat {
    if n == 0 then 0 else CountHits(a, m, n - 1, v) + m(n - 1) * EdgeCount(a, v, n - 1)
  }

  /** How often v is listed in round r: a target as often as it is given, a vertex of the player that has not been
      listed before once for each of its edges into the listings of the round before, an opponent's vertex once in the
      round in which its counter reaches 0. */
  ghost function Times(a: Arena, player: int, f: seq<nat>, r: nat, v: nat): nat
    requires a.Valid()
    decreases r, 1
  {
    if r == 0 then Occurrences(f, v)
    else if v >= a.Size() || Total(a, player, f, r, v) > 0 then 0
    else if a.players[v] == player then RoundHits(a, player, f, r - 1, v)
    else if HitsBefore(a, player, f, r - 1, v) < OutDegree(a, v) <= HitsBefore(a, player, f, r, v) then 1 else 0
  }

  /** How often v is listed before round r. */
  ghost function Total(a: Arena, player: int, f: seq<nat>, r: nat, v: nat): nat
    requires a.Valid()
    decreases r, 0
  {
    if r == 0 then 0 else Total(a, player, f, r - 1, v) + Times(a, player, f, r - 1, v)
  }

  /** How many edges of v are looked at when the listings of round r are checked. */
  ghost function RoundHits(a: Arena, player: int, f: seq<nat>, r: nat, v: nat): nat
    requires a.Valid()
    decreases r, 2
  {
    CountHits(a, (w: nat) => Times(a, player, f, r, w), a.Size(), v)
  }

  /** How many edges of v are looked at before round r: what its counter has been decremented by. */
  ghost function HitsBefore(a: Arena, player: int, f: seq<nat>, r: nat, v: nat): nat
    requires a.Valid()
    decreases r, 0
  {
    if r == 0 then 0 else HitsBefore(a, player, f, r - 1, v) + RoundHits(a, player, f, r - 1, v)
  }

  /** At some time as many edges of the opponent's vertex v have been looked at as it has. */
  ghost predicate CounterRunsOut(a: Arena, player: int, f: seq<nat>, v: nat)
    requires a.Valid()
  {
    v < a.Size() && a.players[v] != player && exists r: nat :: 0 < OutDegree(a, v) <= HitsBefore(a, player, f, r, v)
  }

  /** No counter of an opponent's vertex outside the attractor runs out. */
  ghost predicate CountsRight(a: Arena, player: int, f: seq<nat>)
    requires a.Valid()
  {
    forall v: nat {:trigger CounterRunsOut(a, player, f, v)} :: CounterRunsOut(a, player, f, v) ==>
        InAttractor(a, player, f, v)
  }

  lemma {:induction false} SameCounts(a: Arena, m: nat -> nat, m': nat -> nat, n: nat, v: nat)
    requires forall w: nat {:trigger m(w)} {:trigger m'(w)} :: w < n ==> m(w) == m'(w)
    ensures CountHits(a, m, n, v) == CountHits(a, m', n, v)
  {
    if n > 0 {
      SameCounts(a, m, m', n - 1, v);
    }
  }

  lemma {:induction false} OneMoreCount(a: Arena, m: nat -> nat, m': nat -> nat, n: nat, u: nat, v: nat)
    requires forall w: nat {:trigger m(w)} {:trigger m'(w)} :: w < n ==> m'(w) == m(w) + if w == u then 1 else 0
    ensures CountHits(a, m', n, v) == CountHits(a, m, n, v) + if u < n then EdgeCount(a, v, u) else 0
  {
    if n > 0 {
      OneMoreCount(a, m, m', n - 1, u, v);
      assert m'(n - 1) == m(n - 1) + if n - 1 == u then 1 else 0;
      assert (m(n - 1) + 1) * EdgeCount(a, v, n - 1) == m(n - 1) * EdgeCount(a, v, n - 1) + EdgeCount(a, v, n - 1);
    }
  }

  lemma {:induction false} NoCounts(a: Arena, m: nat -> nat, n: nat, v: nat)
    requires forall w: nat {:trigger m(w)} :: w < n ==> m(w) == 0
    ensures CountHits(a, m, n, v) == 0
  {
    if n > 0 {
      NoCounts(a, m, n - 1, v);
      assert m(n - 1) == 0;
    }
  }

  /** Hits, counted vertex by vertex. */
  lemma {:induction false} HitsAreCounts(a: Arena, s: seq<nat>, v: nat)
    ensures Hits(a, s, v) == CountHits(a, (w: nat) => Occurrences(s, w), a.Size(), v)
    decreases |s|
  {
    var m := (w: nat) => Occurrences(s, w);
    if s == [] {
      NoCounts(a, m, a.Size(), v);
    } else {
      var rest := s[..|s| - 1];
      HitsAreCounts(a, rest, v);
      OneMoreCount(a, (w: nat) => Occurrences(rest, w), m, a.Size(), s[|s| - 1], v);
    }
  }

  lemma {:induction false} OccurrencesConcat(c: seq<nat>, d: seq<nat>, v: nat)
    ensures Occurrences(c + d, v) == Occurrences(c, v) + Occurrences(d, v)
    decreases |d|
  {
    if d == [] {
      assert c + d == c;
    } else {
      OccurrencesConcat(c, d[..|d| - 1], v);
      assert (c + d)[..|c + d| - 1] == c + d[..|d| - 1];
    }
  }

  lemma RoundHitsAre(a: Arena, player: int, f: seq<nat>, r: nat, s: seq<nat>, v: nat)
    requires a.Valid() && forall w: nat {:trigger Occurrences(s, w)} {:trigger Times(a, player, f, r, w)} ::
        Occurrences(s, w) == Times(a, player, f, r, w)
    ensures Hits(a, s, v) == RoundHits(a, player, f, r, v)
  {
    HitsAreCounts(a, s, v);
    SameCounts(a, (w: nat) => Occurrences(s, w), (w: nat) => Times(a, player, f, r, w), a.Size(), v);
  }

  /** What is listed in the rounds of a run is what the arena says. */
  lemma {:induction false} RunTimes(a: Arena, player: int, f: seq<nat>, rounds: seq<seq<nat>>, r: nat, v: nat)
    requires a.Valid() && IsRun(a, player, f, rounds) && r < |rounds|
    ensures Occurrences(rounds[r], v) == Times(a, player, f, r, v)
    decreases r, 1
  {
    if r > 0 {
      var checked, frontier := Flat(rounds[..r - 1]), rounds[r - 1];
      assert Follows(a, player, checked, frontier, rounds[r]);
      RunTotals(a, player, f, rounds, r - 1, v);
      RunTotals(a, player, f, rounds, r, v);
      assert rounds[..r][..r - 1] == rounds[..r - 1];
      assert Flat(rounds[..r]) == checked + frontier;
      OccursIffIn(checked + frontier, v);
      HitsConcat(a, checked, frontier, v);
      assert Occurrences(rounds[r], v) == Listed(a, player, checked, frontier, v);
    }
  }

  lemma {:induction false} RunTotals(a: Arena, player: int, f: seq<nat>, rounds: seq<seq<nat>>, r: nat, v: nat)
    requires a.Valid() && IsRun(a, player, f, rounds) && r <= |rounds|
    ensures Occurrences(Flat(rounds[..r]), v) == Total(a, player, f, r, v)
    ensures Hits(a, Flat(rounds[..r]), v) == HitsBefore(a, player, f, r, v)
    decreases r, 0
  {
    if r > 0 {
      assert rounds[..r][..r - 1] == rounds[..r - 1];
      RunTotals(a, player, f, rounds, r - 1, v);
      var k: nat, last := r - 1, rounds[r - 1];
      forall w: nat ensures Occurrences(last, w) == Times(a, player, f, k, w) {
        RunTimes(a, player, f, rounds, k, w);
      }
      RoundHitsAre(a, player, f, k, last, v);
      OccurrencesConcat(Flat(rounds[..r - 1]), rounds[r - 1], v);
      HitsConcat(a, Flat(rounds[..r - 1]), rounds[r - 1], v);
    }
  }

  /** Nothing is listed after a round in which nothing is. */
  lemma {:induction false} NothingMore(a: Arena, player: int, f: seq<nat>, r: nat, k: nat, v: nat)
    requires a.Valid() && r <= k && forall w: nat {:trigger Times(a, player, f, r, w)} :: Times(a, player, f, r, w) == 0
    ensures Times(a, player, f, k, v) == 0 && HitsBefore(a, player, f, k, v) == HitsBefore(a, player, f, r, v)
    decreases k
  {
    if k > r {
      var l: nat := k - 1;
      forall w: nat ensures Times(a, player, f, l, w) == 0 {
        NothingMore(a, player, f, r, l, w);
      }
      NothingMore(a, player, f, r, l, v);
      NoCounts(a, (w: nat) => Times(a, player, f, l, w), a.Size(), v);
      assert RoundHits(a, player, f, l, v) == 0;
    }
  }

  lemma RunsOutInTheEnd(a: Arena, player: int, f: seq<nat>, rounds: seq<seq<nat>>, v: nat)
    requires a.Valid() && IsRun(a, player, f, rounds) && rounds[|rounds| - 1] == []
    ensures CounterRunsOut(a, player, f, v) <==> Overcounted(a, player, Flat(rounds), v)
  {
    var last := |rounds| - 1;
    assert rounds[..|rounds|] == rounds;
    RunTotals(a, player, f, rounds, |rounds|, v);
    forall w: nat ensures Times(a, player, f, last, w) == 0 {
      RunTimes(a, player, f, rounds, last, w);
    }
    if v < a.Size() && a.players[v] != player {
      if r: nat :| 0 < OutDegree(a, v) <= HitsBefore(a, player, f, r, v) {
        if r <= |rounds| {
          RunTotals(a, player, f, rounds, r, v);
          FlatGrows(a, rounds, r, |rounds|, v);
        } else {
          NothingMore(a, player, f, last, r, v);
          NothingMore(a, player, f, last, |rounds|, v);
        }
      }
    }
  }

  // ----- inputs on which no vertex is checked twice -----

  function Select(s: seq<nat>, t: set<nat>): seq<nat> {
    if s == [] then [] else Select(s[..|s| - 1], t) + if s[|s| - 1] in t then [s[|s| - 1]] else []
  }

  lemma {:induction false} SelectHolds(s: seq<nat>, t: set<nat>, v: nat)
    ensures v in Select(s, t) <==> v in s && v in t
  {
    if s != [] {
      SelectHolds(s[..|s| - 1], t, v);
      assert s == s[..|s| - 1] + [s[|s| - 1]];
    }
  }

  /** How many edges lead from v into the set. */
  ghost function EdgesInto(a: Arena, s: set<nat>, v: nat): nat {
    Hits(a, Select(UpTo(a.Size()), s), v)
  }

  /** The targets are listed once, and no vertex of the player has two edges into the layer that first attracts it. */
  ghost predicate Fair(a: Arena, player: int, f: seq<nat>)
    requires a.Valid()
  {
    Distinct(f) && forall v: nat, r: nat {:trigger EdgesInto(a, Layer(a, player, f, r), v)} ::
      v < a.Size() && a.players[v] == player && v !in Layer(a, player, f, r) ==>
        EdgesInto(a, Layer(a, player, f, r), v) <= 1
  }

  lemma {:induction false} SubHits(a: Arena, c: seq<nat>, d: seq<nat>, v: nat)
    requires Distinct(c) && forall u: nat {:trigger u in c} :: u in c ==> u in d
    ensures Hits(a, c, v) <= Hits(a, d, v)
    decreases |c|
  {
    if c != [] {
      var w := c[|c| - 1];
      assert w in c;
      var i :| 0 <= i < |d| && d[i] == w;
      var c' := RemoveAt(a, c, |c| - 1, v);
      var d' := RemoveAt(a, d, i, v);
      SubHits(a, c', d', v);
    }
  }

  lemma {:induction false} OnceIsDistinct(s: seq<nat>)
    requires forall v: nat {:trigger Occurrences(s, v)} :: Occurrences(s, v) <= 1
    ensures Distinct(s)
  {
    if s != [] {
      var rest, last := s[..|s| - 1], s[|s| - 1];
      forall v: nat ensures Occurrences(rest, v) <= 1 {
        assert Occurrences(s, v) <= 1;
      }
      OnceIsDistinct(rest);
      assert Occurrences(s, last) <= 1;
      OccursIffIn(rest, last);
    }
  }

  /** Without repetitions the run goes layer by layer. */
  lemma {:induction false} DistinctRunIsLayered(a: Arena, player: int, f: seq<nat>, rounds: seq<seq<nat>>, v: nat)
    requires a.Valid() && IsRun(a, player, f, rounds) && Distinct(Flat(rounds[..|rounds| - 1]))
    ensures v in Flat(rounds) <==> v in Layer(a, player, f, |rounds| - 1)
    decreases |rounds|
  {
    var r := |rounds| - 1;
    if v in Layer(a, player, f, r) {
      RunCoversLayer(a, player, f, rounds, v);
    }
    if v in Flat(rounds) {
      if r == 0 {
        assert Flat(rounds) == Flat(rounds[..0]) + rounds[0];
      } else {
        var checked, s := Flat(rounds[..r]), Layer(a, player, f, r - 1);
        DistinctBefore(a, player, f, rounds);
        forall w: nat ensures w in checked <==> w in s {
          DistinctRunIsLayered(a, player, f, rounds[..r], w);
        }
        NextLayer(a, player, f, rounds, v);
      }
    }
  }

  lemma DistinctBefore(a: Arena, player: int, f: seq<nat>, rounds: seq<seq<nat>>)
    requires a.Valid() && IsRun(a, player, f, rounds) && Distinct(Flat(rounds[..|rounds| - 1])) && |rounds| > 1
    ensures IsRun(a, player, f, rounds[..|rounds| - 1]) && Distinct(Flat(rounds[..|rounds| - 1][..|rounds| - 2]))
  {
    var r := |rounds| - 1;
    RunPrefix(a, player, f, rounds);
    assert rounds[..r][..r - 1] == rounds[..r - 1];
    DistinctPrefix(Flat(rounds[..r - 1]), rounds[r - 1]);
  }

  lemma NextLayer(a: Arena, player: int, f: seq<nat>, rounds: seq<seq<nat>>, v: nat)
    requires a.Valid() && IsRun(a, player, f, rounds) && Distinct(Flat(rounds[..|rounds| - 1])) && |rounds| > 1
        && v in Flat(rounds)
    requires forall w: nat {:trigger w in Layer(a, player, f, |rounds| - 2)} :: w in Flat(rounds[..|rounds| - 1]) <==>
        w in Layer(a, player, f, |rounds| - 2)
    ensures v in Layer(a, player, f, |rounds| - 1)
  {
    var r := |rounds| - 1;
    var checked, s := Flat(rounds[..r]), Layer(a, player, f, r - 1);
    RunInside(a, player, f, rounds, v);
    RunMeets(a, player, f, rounds, v);
    DistinctBefore(a, player, f, rounds);
    if v in f {
      TargetsInLayer(a, player, f, r, v);
    } else {
      forall w | w in checked ensures w < a.Size() {
        RunInside(a, player, f, rounds[..r], w);
      }
      MetIsAttracted(a, player, f, checked, s, v);
    }
  }

  lemma {:induction false} TargetsInLayer(a: Arena, player: int, f: seq<nat>, r: nat, v: nat)
    requires a.Valid() && v in f
    ensures v in Layer(a, player, f, r)
  {
    if r > 0 {
      TargetsInLayer(a, player, f, r - 1, v);
    }
  }

  lemma MetIsAttracted(a: Arena, player: int, f: seq<nat>, checked: seq<nat>, s: set<nat>, v: nat)
    requires a.Valid() && Distinct(checked) && (forall w: nat {:trigger w in s} :: w in checked <==> w in s)
        && (forall w :: w in checked ==> w < a.Size())
    requires v < a.Size() && v !in f && Met(a, player, f, checked, v)
    ensures Attracted(a, player, s, v)
  {
    if a.players[v] == player {
      HitsIffEdge(a, checked, v);
    } else {
      DegreeIffEdge(a, v);
      forall w: nat | a.Edge(v, w) ensures w in s {
        ExactHits(a, a.Size(), checked, v, w);
      }
    }
  }

  lemma {:induction false} FairRunIsDistinct(a: Arena, player: int, f: seq<nat>, rounds: seq<seq<nat>>)
    requires a.Valid() && IsRun(a, player, f, rounds) && Fair(a, player, f)
    ensures Distinct(Flat(rounds))
    decreases |rounds|
  {
    var r := |rounds| - 1;
    if r == 0 {
      assert Flat(rounds) == Flat(rounds[..0]) + rounds[0];
    } else {
      RunPrefix(a, player, f, rounds);
      FairRunIsDistinct(a, player, f, rounds[..r]);
      var all, next := Flat(rounds[..r]), rounds[r];
      forall v: nat ensures Occurrences(next, v) <= 1 && (v in all ==> v !in next) {
        OccursIffIn(next, v);
        FairlyListed(a, player, f, rounds, v);
      }
      OnceIsDistinct(next);
      DistinctConcat(all, next);
      assert Flat(rounds) == all + next;
    }
  }

  lemma DistinctConcat(c: seq<nat>, d: seq<nat>)
    requires Distinct(c) && Distinct(d) && forall v: nat :: v in c ==> v !in d
    ensures Distinct(c + d)
  {
    forall i, j | 0 <= i < j < |c + d| ensures (c + d)[i] != (c + d)[j] {
      if i < |c| <= j {
        assert c[i] in c && d[j - |c|] in d;
      }
    }
  }

  lemma FairlyListed(a: Arena, player: int, f: seq<nat>, rounds: seq<seq<nat>>, v: nat)
    requires a.Valid() && IsRun(a, player, f, rounds) && Fair(a, player, f) && |rounds| > 1
        && Distinct(Flat(rounds[..|rounds| - 1]))
    ensures Occurrences(rounds[|rounds| - 1], v) <= 1
  {
    var r := |rounds| - 1;
    RunPrefix(a, player, f, rounds);
    var checked, frontier, s := Flat(rounds[..r - 1]), rounds[r - 1], Layer(a, player, f, r - 1);
    assert Flat(rounds[..r]) == checked + frontier;
    if v < a.Size() && v !in checked + frontier && a.players[v] == player {
      assert rounds[..r][..r - 1] == rounds[..r - 1];
      DistinctPrefix(checked, frontier);
      forall w: nat ensures w in checked + frontier <==> w in s {
        DistinctRunIsLayered(a, player, f, rounds[..r], w);
      }
      forall w: nat | w in checked + frontier ensures w in Select(UpTo(a.Size()), s) {
        RunInside(a, player, f, rounds[..r], w);
        UpToHolds(a.Size(), w);
        SelectHolds(UpTo(a.Size()), s, w);
      }
      SubHits(a, checked + frontier, Select(UpTo(a.Size()), s), v);
      HitsConcat(a, checked, frontier, v);
      assert EdgesInto(a, s, v) <= 1;
    }
  }

  // ----- an arena on which too much is marked -----

  /** Vertex 1 belongs to player 0 and has edges to both targets 0 and 4; vertex 2 belongs to the opponent and can
      escape to 3. */
  const ESCAPE: Arena := Arena([[1], [2], [], [2], [1]], [1, 0, 1, 1, 1])

  lemma OccursHits(a: Arena, checked: seq<nat>, w: nat, v: nat)
    requires a.Edge(v, w)
    ensures Hits(a, checked, v) >= Occurrences(checked, w)
  {
    if checked != [] {
      OccursHits(a, checked[..|checked| - 1], w, v);
      CountIffEdge(a, v, w);
    }
  }

  lemma EscapeIsMissed()
    ensures ESCAPE.Valid() && !InAttractor(ESCAPE, 0, [0, 4], 2)
  {
    var s: set<nat> := {0, 4, 1};
    assert ESCAPE.Edge(2, 3);
    assert forall w: nat :: ESCAPE.Edge(1, w) ==> w == 0 || w == 4;
    assert IsClosed(ESCAPE, 0, s);
    assert forall t: nat :: t in [0, 4] ==> t in s;
  }

  lemma EscapeCounts()
    ensures OutDegree(ESCAPE, 2) == 2 && Hits(ESCAPE, [0, 4], 1) == 2 && Hits(ESCAPE, [0, 4], 2) == 0
  {
    var a := ESCAPE;
    forall w: nat | w < 5 ensures EdgeCount(a, 2, w) == (if w == 1 || w == 3 then 1 else 0)
        && EdgeCount(a, 1, w) == if w == 0 || w == 4 then 1 else 0
    {
      assert [1][..0] == [] && [2][..0] == [];
      assert Occurrences([1], 1) == 1 && Occurrences([2], 2) == 1 && Occurrences([1], 2) == 0
          && Occurrences([2], 1) == 0;
    }
    UpToOneMore(a, 1, 2);
    UpToOneMore(a, 2, 2);
    UpToOneMore(a, 3, 2);
    UpToOneMore(a, 4, 2);
    UpToOneMore(a, 5, 2);
    assert [0, 4] == [0] + [4];
    HitsConcat(a, [0], [4], 1);
    HitsConcat(a, [0], [4], 2);
    HitsOne(a, 0, 1);
    HitsOne(a, 4, 1);
    HitsOne(a, 0, 2);
    HitsOne(a, 4, 2);
  }

  /** Vertex 1 is listed twice in the second round. */
  lemma EscapeSecondRound(rounds: seq<seq<nat>>)
    requires ESCAPE.Valid() && IsRun(ESCAPE, 0, [0, 4], rounds) && rounds[|rounds| - 1] == []
    ensures |rounds| > 2 && Occurrences(rounds[1], 1) == 2
  {
    EscapeCounts();
    assert Flat(rounds[..0]) == [];
    assert Follows(ESCAPE, 0, Flat(rounds[..0]), rounds[0], rounds[1]);
    assert [] + [0, 4] == [0, 4];
    assert Occurrences(rounds[1], 1) == Listed(ESCAPE, 0, [], [0, 4], 1);
    OccursIffIn(rounds[1], 1);
  }

  /** Every ended run on this arena marks vertex 2, which is not in the attractor: vertex 1 is checked twice. */
  lemma EscapeIsMarked(rounds: seq<seq<nat>>)
    requires ESCAPE.Valid() && IsRun(ESCAPE, 0, [0, 4], rounds) && rounds[|rounds| - 1] == []
    ensures 2 in Flat(rounds) && !InAttractor(ESCAPE, 0, [0, 4], 2)
  {
    var a := ESCAPE;
    EscapeIsMissed();
    EscapeCounts();
    EscapeSecondRound(rounds);
    MoreChecked(a, rounds, 2);
    HitsConcat(a, Flat(rounds[..1]), rounds[1], 2);
    OccursHits(a, rounds[1], 1, 2);
    RunMeets(a, 0, [0, 4], rounds, 2);
  }

  lemma MoreChecked(a: Arena, rounds: seq<seq<nat>>, v: nat)
    requires |rounds| > 2
    ensures Hits(a, Flat(rounds[..|rounds| - 1]), v) >= Hits(a, Flat(rounds[..2]), v)
        && Flat(rounds[..2]) == Flat(rounds[..1]) + rounds[1]
  {
    assert rounds[..2][..1] == rounds[..1];
    FlatGrows(a, rounds, 2, |rounds| - 1, v);
  }

  // ----- the algorithm -----

  lemma {:induction false} OneMoreOccurrence(s: seq<nat>, j: nat, v: nat)
    requires j < |s|
    ensures Occurrences(s[..j + 1], v) == Occurrences(s[..j], v) + if s[j] == v then 1 else 0
  {
    assert s[..j + 1][..j] == s[..j];
  }

  lemma OneMoreHit(a: Arena, c: seq<nat>, k: nat, v: nat)
    requires k < |c|
    ensures Hits(a, c[..k + 1], v) == Hits(a, c[..k], v) + EdgeCount(a, v, c[k])
  {
    assert c[..k + 1][..k] == c[..k];
  }

  /** The pre-processing: every vertex's number of edges. */
  method CountEdges(a: Arena, out_degrees: array<int>)
    requires a.Valid() && out_degrees.Length == a.Size()
    modifies out_degrees
    ensures forall v: nat {:trigger out_degrees[v]} :: v < a.Size() ==> out_degrees[v] == OutDegree(a, v)
  {
    for j := 0 to a.Size()
      invariant forall v: nat {:trigger out_degrees[v]} :: v < j ==> out_degrees[v] == 0
    {
      out_degrees[j] := 0;
    }
    for w := 0 to a.Size()
      invariant forall v: nat {:trigger out_degrees[v]} :: v < a.Size() ==> out_degrees[v] == Hits(a, UpTo(w), v)
    {
      var node := a.preds[w];
      for j := 0 to |node|
        invariant forall v: nat {:trigger out_degrees[v]} :: v < a.Size() ==>
            out_degrees[v] == Hits(a, UpTo(w), v) + Occurrences(node[..j], v)
      {
        var pred := a.preds[w][j];
        forall v: nat ensures Occurrences(node[..j + 1], v) == Occurrences(node[..j], v) + if pred == v then 1 else 0 {
          OneMoreOccurrence(node, j, v);
        }
        out_degrees[pred] := out_degrees[pred] + 1;
      }
      assert node[..|node|] == node;
      forall v: nat ensures Hits(a, UpTo(w + 1), v) == Hits(a, UpTo(w), v) + Occurrences(node, v) {
        UpToOneMore(a, w + 1, v);
      }
    }
  }

  /** While the frontier is checked, so many hits have come in for v: what is listed of it, and where its counter
      stands. */
  ghost predicate InStep(a: Arena, player: int, checked: seq<nat>, frontier: seq<nat>, hits: nat -> int,
      degrees: seq<int>, next: seq<nat>, v: nat)
    requires a.Valid() && |degrees| == a.Size()
  {
    if v >= a.Size() || v in checked + frontier then Occurrences(next, v) == 0
    else if a.players[v] == player then Occurrences(next, v) == hits(v)
    else
      && degrees[v] == OutDegree(a, v) - Hits(a, checked, v) - hits(v)
      && Occurrences(next, v) == if 0 < OutDegree(a, v) && Hits(a, checked, v) < OutDegree(a, v) <= Hits(a, checked,
           v) + hits(v) then 1 else 0
  }

  lemma AppendOccurs(s: seq<nat>, v: nat, u: nat)
    ensures Occurrences(s + [v], u) == Occurrences(s, u) + if u == v then 1 else 0
  {
    assert (s + [v])[..|s|] == s;
  }

  /** Checks one edge into the frontier. */
  method CheckEdge(a: Arena, player: int, attractor: array<int>, out_degrees: array<int>, pred: nat, next0: seq<nat>,
                   ghost checked: seq<nat>, ghost frontier: seq<nat>, ghost hits: nat -> int, ghost hits': nat -> int)
                       returns (next: seq<nat>)
    requires a.Valid() && attractor != out_degrees && attractor.Length == out_degrees.Length == a.Size()
        && pred < a.Size()
    requires forall v: nat {:trigger attractor[v]} :: v < a.Size() ==> (attractor[v] != 0 <==> v in checked + frontier)
    requires forall v: nat {:trigger InStep(a, player, checked, frontier, hits, out_degrees[..], next0, v)} ::
        InStep(a, player, checked, frontier, hits, out_degrees[..], next0, v)
    requires forall v: nat {:trigger hits'(v)} :: hits'(v) == hits(v) + if v == pred then 1 else 0
    requires a.players[pred] != player && pred !in checked + frontier ==>
        0 < OutDegree(a, pred) && Hits(a, checked, pred) < OutDegree(a, pred)
    modifies out_degrees
    ensures forall v: nat {:trigger InStep(a, player, checked, frontier, hits', out_degrees[..], next, v)} ::
        InStep(a, player, checked, frontier, hits', out_degrees[..], next, v)
  {
    next := next0;
    ghost var degrees0 := out_degrees[..];
    assert InStep(a, player, checked, frontier, hits, degrees0, next0, pred);
    if attractor[pred] == 0 {
      if a.players[pred] == player {
        next := next + [pred];
      } else {
        out_degrees[pred] := out_degrees[pred] - 1;
        if out_degrees[pred] == 0 {
          next := next + [pred];
        }
      }
    }
    forall v: nat ensures InStep(a, player, checked, frontier, hits', out_degrees[..], next, v) {
      assert InStep(a, player, checked, frontier, hits, degrees0, next0, v);
      AppendOccurs(next0, pred, v);
      assert hits'(v) == hits(v) + if v == pred then 1 else 0;
    }
  }

  /** The hits from the first k vertices of the frontier and the first j edges into vertex number k. */
  ghost function PartHits(a: Arena, frontier: seq<nat>, k: nat, j: nat): nat -> int
    requires k <= |frontier|
  {
    (v: nat) => Hits(a, frontier[..k], v) + if k < |frontier| && frontier[k] < a.Size() && j <= |a.preds[frontier[k]]|
      then Occurrences(a.preds[frontier[k]][..j], v) else 0
  }

  ghost predicate AllInStep(a: Arena, player: int, checked: seq<nat>, frontier: seq<nat>, hits: nat -> int,
      degrees: seq<int>, next: seq<nat>)
    requires a.Valid() && |degrees| == a.Size()
  {
    forall v: nat {:trigger InStep(a, player, checked, frontier, hits, degrees, next, v)} ::
        InStep(a, player, checked, frontier, hits, degrees, next, v)
  }

  /** The counters of vertices that are not marked stand where the checked vertices have brought them. */
  ghost predicate CountersFit(a: Arena, player: int, checked: seq<nat>, marked: seq<nat>, degrees: seq<int>)
    requires a.Valid() && |degrees| == a.Size()
  {
    forall v: nat {:trigger degrees[v]} :: v < a.Size() && v !in marked && a.players[v] != player ==>
      degrees[v] == OutDegree(a, v) - Hits(a, checked, v) && (0 < OutDegree(a, v) ==>
        Hits(a, checked, v) < OutDegree(a, v))
  }

  lemma SameHits(a: Arena, player: int, checked: seq<nat>, frontier: seq<nat>, hits: nat -> int, hits': nat -> int,
      degrees: seq<int>, next: seq<nat>)
    requires a.Valid() && |degrees| == a.Size() && AllInStep(a, player, checked, frontier, hits, degrees, next)
        && forall v: nat {:trigger hits'(v)} :: hits'(v) == hits(v)
    ensures AllInStep(a, player, checked, frontier, hits', degrees, next)
  {
    forall v: nat ensures InStep(a, player, checked, frontier, hits', degrees, next, v) {
      assert InStep(a, player, checked, frontier, hits, degrees, next, v);
      var _ := hits'(v);
    }
  }

  lemma StartStep(a: Arena, player: int, checked: seq<nat>, frontier: seq<nat>, degrees: seq<int>)
    requires a.Valid() && |degrees| == a.Size() && CountersFit(a, player, checked, checked + frontier, degrees)
    ensures AllInStep(a, player, checked, frontier, PartHits(a, frontier, 0, 0), degrees, [])
  {
    var hits := PartHits(a, frontier, 0, 0);
    assert frontier[..0] == [];
    forall v: nat ensures InStep(a, player, checked, frontier, hits, degrees, [], v) {
      assert hits(v) == 0;
      var _ := if v < a.Size() then degrees[v] else 0;
    }
  }

  /** An edge into the frontier is one of the edges that the counter started with. */
  lemma EdgeIsCounted(a: Arena, player: int, checked: seq<nat>, marked: seq<nat>, degrees: seq<int>, w: nat, j: nat)
    requires a.Valid() && |degrees| == a.Size() && CountersFit(a, player, checked, marked, degrees) && w < a.Size()
        && j < |a.preds[w]|
    ensures a.preds[w][j] < a.Size()
    ensures a.preds[w][j] !in marked && a.players[a.preds[w][j]] != player ==>
        0 < OutDegree(a, a.preds[w][j]) && Hits(a, checked, a.preds[w][j]) < OutDegree(a, a.preds[w][j])
  {
    var v := a.preds[w][j];
    assert a.Edge(v, w);
    DegreeIffEdge(a, v);
    var _ := degrees[v];
  }

  lemma EndStep(a: Arena, player: int, checked: seq<nat>, frontier: seq<nat>, degrees0: seq<int>, degrees: seq<int>,
      next: seq<nat>)
    requires a.Valid() && |degrees| == |degrees0| == a.Size()
        && CountersFit(a, player, checked, checked + frontier, degrees0)
    requires AllInStep(a, player, checked, frontier, PartHits(a, frontier, |frontier|, 0), degrees, next)
    ensures Follows(a, player, checked, frontier, next)
    ensures CountersFit(a, player, checked + frontier, checked + frontier + next, degrees)
  {
    var hits := PartHits(a, frontier, |frontier|, 0);
    assert frontier[..|frontier|] == frontier;
    forall v: nat ensures Occurrences(next, v) == Listed(a, player, checked, frontier, v) {
      assert InStep(a, player, checked, frontier, hits, degrees, next, v);
      HitsConcat(a, checked, frontier, v);
      assert hits(v) == Hits(a, frontier, v);
    }
    forall v: nat | v < a.Size() && v !in checked + frontier + next && a.players[v] != player
      ensures degrees[v] == OutDegree(a, v) - Hits(a, checked + frontier, v) && (0 < OutDegree(a, v) ==>
          Hits(a, checked + frontier, v) < OutDegree(a, v))
    {
      assert InStep(a, player, checked, frontier, hits, degrees, next, v);
      HitsConcat(a, checked, frontier, v);
      assert hits(v) == Hits(a, frontier, v);
      OccursIffIn(next, v);
      var _ := degrees0[v];
    }
  }

  /** Checks the edges into the k-th vertex of the frontier. */
  method CheckVertex(a: Arena, player: int, attractor: array<int>, out_degrees: array<int>, k: nat, next0: seq<nat>,
                     ghost checked: seq<nat>, frontier: seq<nat>, ghost degrees0: seq<int>) returns (next: seq<nat>)
    requires a.Valid() && attractor != out_degrees && attractor.Length == out_degrees.Length == a.Size() == |degrees0|
    requires forall v: nat {:trigger attractor[v]} :: v < a.Size() ==> (attractor[v] != 0 <==> v in checked + frontier)
    requires k < |frontier| && frontier[k] < a.Size() && CountersFit(a, player, checked, checked + frontier, degrees0)
    requires AllInStep(a, player, checked, frontier, PartHits(a, frontier, k, 0), out_degrees[..], next0)
    modifies out_degrees
    ensures AllInStep(a, player, checked, frontier, PartHits(a, frontier, k + 1, 0), out_degrees[..], next)
  {
    next := next0;
    var w := frontier[k];
    for j := 0 to |a.preds[w]|
      invariant AllInStep(a, player, checked, frontier, PartHits(a, frontier, k, j), out_degrees[..], next)
    {
      var pred := a.preds[w][j];
      EdgeIsCounted(a, player, checked, checked + frontier, degrees0, w, j);
      ghost var hits, hits' := PartHits(a, frontier, k, j), PartHits(a, frontier, k, j + 1);
      forall v: nat ensures hits'(v) == hits(v) + if v == pred then 1 else 0 {
        OneMoreOccurrence(a.preds[w], j, v);
      }
      next := CheckEdge(a, player, attractor, out_degrees, pred, next, checked, frontier, hits, hits');
    }
    ghost var hits, hits' := PartHits(a, frontier, k, |a.preds[w]|), PartHits(a, frontier, k + 1, 0);
    forall v: nat ensures hits'(v) == hits(v) {
      OneMoreHit(a, frontier, k, v);
      assert a.preds[w][..|a.preds[w]|] == a.preds[w];
      assert k + 1 < |frontier| && frontier[k + 1] < a.Size() ==> a.preds[frontier[k + 1]][..0] == [];
    }
    SameHits(a, player, checked, frontier, hits, hits', out_degrees[..], next);
  }

  /** One round: the frontier is checked, then what is new is marked. */
  method Round(a: Arena, player: int, attractor: array<int>, out_degrees: array<int>, ghost checked: seq<nat>,
      frontier: seq<nat>) returns (next: seq<nat>)
    requires a.Valid() && attractor != out_degrees && attractor.Length == out_degrees.Length == a.Size() && forall v ::
        v in frontier ==> v < a.Size()
    requires forall v: nat {:trigger attractor[v]} :: v < a.Size() ==> (attractor[v] != 0 <==> v in checked + frontier)
    requires CountersFit(a, player, checked, checked + frontier, out_degrees[..])
    modifies attractor, out_degrees
    ensures Follows(a, player, checked, frontier, next) && forall v :: v in next ==> v < a.Size()
    ensures forall v: nat {:trigger attractor[v]} :: v < a.Size() ==>
        (attractor[v] != 0 <==> v in checked + frontier + next)
    ensures forall v: nat {:trigger attractor[v]} :: v < a.Size() ==>
        attractor[v] == old(attractor[v]) || attractor[v] == 1
    ensures CountersFit(a, player, checked + frontier, checked + frontier + next, out_degrees[..])
  {
    ghost var degrees0 := out_degrees[..];
    next := [];
    StartStep(a, player, checked, frontier, degrees0);
    for k := 0 to |frontier|
      invariant forall v: nat {:trigger attractor[v]} :: v < a.Size() ==>
          (attractor[v] != 0 <==> v in checked + frontier) && attractor[v] == old(attractor[v])
      invariant AllInStep(a, player, checked, frontier, PartHits(a, frontier, k, 0), out_degrees[..], next)
    {
      assert frontier[k] in frontier;
      next := CheckVertex(a, player, attractor, out_degrees, k, next, checked, frontier, degrees0);
    }
    EndStep(a, player, checked, frontier, degrees0, out_degrees[..], next);
    forall v | v in next ensures v < a.Size() {
      OccursIffIn(next, v);
      assert Occurrences(next, v) == Listed(a, player, checked, frontier, v);
    }
    MarkAll(attractor, next);
  }

  method MarkAll(attractor: array<int>, next: seq<nat>)
    requires forall v :: v in next ==> v < attractor.Length
    modifies attractor
    ensures forall v: nat {:trigger attractor[v]} :: v < attractor.Length ==> attractor[v] == if v in next then 1
        else old(attractor[v])
  {
    for i := 0 to |next|
      invariant forall v: nat {:trigger attractor[v]} :: v < attractor.Length ==> attractor[v] == if v in next[..i]
          then 1 else old(attractor[v])
    {
      assert next[i] in next;
      attractor[next[i]] := 1;
    }
    assert next[..|next|] == next;
  }

  lemma SameStart(rounds: seq<seq<nat>>, next: seq<nat>, r: nat)
    requires 1 <= r <= |rounds|
    ensures (rounds + [next])[..r - 1] == rounds[..r - 1] && (rounds + [next])[r - 1] == rounds[r - 1]
    ensures r < |rounds| ==> (rounds + [next])[r] == rounds[r]
  {
  }

  lemma RunGoesOn(a: Arena, player: int, f: seq<nat>, rounds: seq<seq<nat>>, next: seq<nat>)
    requires a.Valid() && IsRun(a, player, f, rounds)
        && Follows(a, player, Flat(rounds[..|rounds| - 1]), rounds[|rounds| - 1], next)
    ensures IsRun(a, player, f, rounds + [next]) && Flat(rounds + [next]) == Flat(rounds) + next
    ensures Flat((rounds + [next])[..|rounds|]) == Flat(rounds)
  {
    var more := rounds + [next];
    assert more[..|rounds|] == rounds;
    forall r | 1 <= r < |more| ensures Follows(a, player, Flat(more[..r - 1]), more[r - 1], more[r]) {
      SameStart(rounds, next, r);
      assert r < |rounds| ==> Follows(a, player, Flat(rounds[..r - 1]), rounds[r - 1], rounds[r]);
    }
  }

  lemma FlatIsConcat(rounds: seq<seq<nat>>)
    requires rounds != []
    ensures Flat(rounds) == Flat(rounds[..|rounds| - 1]) + rounds[|rounds| - 1]
  {
  }

  lemma FreshCounters(a: Arena, player: int, marked: seq<nat>, degrees: seq<int>)
    requires a.Valid() && |degrees| == a.Size() && forall v: nat {:trigger degrees[v]} :: v < a.Size() ==>
        degrees[v] == OutDegree(a, v)
    ensures CountersFit(a, player, [], marked, degrees)
  {
  }

  /** The vertices not marked yet. */
  ghost function Unmarked(a: Arena, marked: seq<nat>): set<nat> {
    set v | v in Numbers(a.Size()) && v !in marked
  }

  lemma MarkedMore(a: Arena, player: int, checked: seq<nat>, frontier: seq<nat>, next: seq<nat>)
    requires a.Valid() && Follows(a, player, checked, frontier, next) && next != []
    ensures Unmarked(a, checked + frontier + next) < Unmarked(a, checked + frontier)
  {
    var v := next[0];
    OccursIffIn(next, v);
    assert Occurrences(next, v) == Listed(a, player, checked, frontier, v);
    assert v in Unmarked(a, checked + frontier) && v !in Unmarked(a, checked + frontier + next);
  }

  lemma {:induction false} LayerIsInside(a: Arena, player: int, f: seq<nat>, s: set<nat>, r: nat, v: nat)
    requires a.Valid() && IsClosed(a, player, s) && (forall t: nat :: t in f ==> t in s) && v in Layer(a, player, f, r)
    ensures v in s
    decreases r
  {
    if r > 0 {
      var l := Layer(a, player, f, r - 1);
      forall w: nat | w in l ensures w in s {
        LayerIsInside(a, player, f, s, r - 1, w);
      }
      if v !in l {
        if a.players[v] == player {
          var w: nat :| a.Edge(v, w) && w in l;
        } else {
          assert Trapped(a, s, v);
        }
      }
    }
  }

  /** A bounded run covers the layer of its bound, also when it ends early. */
  lemma BoundedRunCovers(a: Arena, player: int, f: seq<nat>, rounds: seq<seq<nat>>, i: nat, v: nat)
    requires a.Valid() && IsRun(a, player, f, rounds) && v in Layer(a, player, f, i)
    requires |rounds| == i + 1 || rounds[|rounds| - 1] == []
    ensures v in Flat(rounds)
  {
    if |rounds| == i + 1 {
      RunCoversLayer(a, player, f, rounds, v);
    } else {
      EndedRunIsClosed(a, player, f, rounds);
      forall t: nat | t in f ensures t in Flat(rounds) {
        RunHoldsTargets(a, player, f, rounds, t);
      }
      var marked := set u | u in Flat(rounds);
      LayerIsInside(a, player, f, marked, i, v);
    }
  }

  /** The pre-processing and the loop over rounds. */
  method Run(a: Arena, f: seq<nat>, player: int, i: int) returns (attractor: array<int>, ghost rounds: seq<seq<nat>>)
    requires a.Valid() && forall t :: t in f ==> t < a.Size()
    ensures fresh(attractor) && attractor.Length == a.Size() && IsRun(a, player, f, rounds)
    ensures forall v: nat {:trigger attractor[v]} :: v < a.Size() ==>
        (attractor[v] == if v in Flat(rounds) then 1 else 0)
    ensures if i < 0 then rounds[|rounds| - 1] == []
        else |rounds| == i + 1 || (|rounds| <= i && rounds[|rounds| - 1] == [])
  {
    var out_degrees := new int[a.Size()];
    CountEdges(a, out_degrees);
    attractor := new int[a.Size()](_ => 0);
    MarkAll(attractor, f);
    var attractor_new := f;
    var i' := i;
    ghost var checked: seq<nat> := [];
    rounds := [f];
    assert Flat([]) == [] && rounds[..0] == [];
    FreshCounters(a, player, [] + f, out_degrees[..]);
    while |attractor_new| > 0 && i' != 0
      invariant IsRun(a, player, f, rounds) && checked == Flat(rounds[..|rounds| - 1])
          && attractor_new == rounds[|rounds| - 1]
      invariant i' == i - (|rounds| - 1) && (i >= 0 ==> i' >= 0) && forall v :: v in attractor_new ==> v < a.Size()
      invariant forall v: nat {:trigger attractor[v]} :: v < a.Size() ==>
          (attractor[v] == if v in checked + attractor_new then 1 else 0)
      invariant CountersFit(a, player, checked, checked + attractor_new, out_degrees[..])
      decreases Unmarked(a, checked + attractor_new), |attractor_new|
    {
      var to_check := attractor_new;
      attractor_new := Round(a, player, attractor, out_degrees, checked, to_check);
      RunGoesOn(a, player, f, rounds, attractor_new);
      FlatIsConcat(rounds);
      if attractor_new != [] {
        MarkedMore(a, player, checked, to_check, attractor_new);
      }
      assert checked + to_check + [] == checked + to_check;
      rounds, checked := rounds + [attractor_new], checked + to_check;
      i' := i' - 1;
    }
    FlatIsConcat(rounds);
  }

  ghost predicate MarksAre(a: Arena, player: int, f: seq<nat>, rounds: seq<seq<nat>>)
    requires a.Valid()
  {
    forall v: nat {:trigger v in Flat(rounds)} :: v in Flat(rounds) <==> InAttractor(a, player, f, v)
  }

  /** The marks of the whole run are exact if and only if no counter outside the attractor runs out. */
  lemma ExactIffCountsRight(a: Arena, player: int, f: seq<nat>, rounds: seq<seq<nat>>)
    requires a.Valid() && IsRun(a, player, f, rounds) && rounds[|rounds| - 1] == []
    ensures MarksAre(a, player, f, rounds) <==> CountsRight(a, player, f)
    ensures Fair(a, player, f) ==> MarksAre(a, player, f, rounds)
  {
    ExactIffNotOvercounted(a, player, f, rounds);
    forall v: nat ensures CounterRunsOut(a, player, f, v) <==> Overcounted(a, player, Flat(rounds), v) {
      RunsOutInTheEnd(a, player, f, rounds, v);
    }
    if CountsRight(a, player, f) {
      assert forall v: nat {:trigger Overcounted(a, player, Flat(rounds), v)} ::
          Overcounted(a, player, Flat(rounds), v) ==> CounterRunsOut(a, player, f, v);
    }
    if MarksAre(a, player, f, rounds) {
      assert forall v: nat {:trigger CounterRunsOut(a, player, f, v)} :: CounterRunsOut(a, player, f, v) ==>
          Overcounted(a, player, Flat(rounds), v);
    }
    if Fair(a, player, f) {
      FairRunIsDistinct(a, player, f, rounds);
      FlatIsConcat(rounds);
      DistinctPrefix(Flat(rounds[..|rounds| - 1]), rounds[|rounds| - 1]);
      forall v: nat ensures v in Flat(rounds) <==> InAttractor(a, player, f, v) {
        DistinctRunIsExact(a, player, f, rounds, v);
      }
    }
  }

  lemma {:induction false} LayersGrow(a: Arena, player: int, f: seq<nat>, r: nat, k: nat, v: nat)
    requires a.Valid() && r <= k && v in Layer(a, player, f, r)
    ensures v in Layer(a, player, f, k)
    decreases k
  {
    if r < k {
      LayersGrow(a, player, f, r, k - 1, v);
    }
  }

  /** On fair inputs a bounded run marks exactly the layer of its bound. */
  lemma FairBoundedRun(a: Arena, player: int, f: seq<nat>, rounds: seq<seq<nat>>, i: nat, v: nat)
    requires a.Valid() && IsRun(a, player, f, rounds) && Fair(a, player, f)
    requires |rounds| == i + 1 || (|rounds| <= i && rounds[|rounds| - 1] == [])
    ensures v in Flat(rounds) <==> v in Layer(a, player, f, i)
  {
    FairRunIsDistinct(a, player, f, rounds);
    FlatIsConcat(rounds);
    DistinctPrefix(Flat(rounds[..|rounds| - 1]), rounds[|rounds| - 1]);
    DistinctRunIsLayered(a, player, f, rounds, v);
    if v in Layer(a, player, f, i) {
      BoundedRunCovers(a, player, f, rounds, i, v);
    }
    if v in Flat(rounds) {
      LayersGrow(a, player, f, |rounds| - 1, i, v);
    }
  }

  class FiniteArena {
    var preds: seq<seq<nat>>
    var players: seq<int>

    function View(): Arena
      reads this
    {
      Arena(preds, players)
    }

    constructor (n: nat)
      ensures View() == Arena(seq(n, _ => []), seq(n, _ => 0)) && View().Valid()
    {
      preds, players := seq(n, _ => []), seq(n, _ => 0);
    }

    method AddPreds(index: nat, pred_list: seq<nat>)
      requires View().Valid() && index < |preds| && forall v :: v in pred_list ==> v < |preds|
      modifies this
      ensures View().Valid() && players == old(players) && preds == old(preds)[index := old(preds)[index] + pred_list]
    {
      forall i | 0 <= i < |pred_list| ensures pred_list[i] < |preds| {
        assert pred_list[i] in pred_list;
      }
      preds := preds[index := preds[index] + pred_list];
    }

    /** A list of the wrong length is ignored. */
    method SetPlayers(players: seq<int>)
      requires View().Valid()
      modifies this
      ensures View().Valid() && preds == old(preds) && this.players == if |players| == |old(preds)| then players
          else old(this.players)
    {
      if |players| == |preds| {
        this.players := players;
      }
    }

    /** The attractor, all of it when i is negative, otherwise at most i rounds of it. rounds gives the frontiers of the
        run. For all inputs the run ends and nothing of the attractor is missed; the marks are exact if and only if no
        counter of an opponent's vertex outside the attractor runs out, and in particular on fair inputs. */
    method Attractor(f: seq<nat>, player: int, i: int) returns (attractor: array<int>, ghost rounds: seq<seq<nat>>)
      requires View().Valid() && forall t :: t in f ==> t < |preds|
      ensures fresh(attractor) && attractor.Length == |preds| && IsRun(View(), player, f, rounds)
      ensures forall v: nat {:trigger attractor[v]} :: v < attractor.Length ==>
          (attractor[v] == if v in Flat(rounds) then 1 else 0)
      ensures if i < 0 then rounds[|rounds| - 1] == []
          else |rounds| == i + 1 || (|rounds| <= i && rounds[|rounds| - 1] == [])
      ensures i >= 0 ==> forall v: nat {:trigger attractor[v]} ::
          v < attractor.Length && v in Layer(View(), player, f, i) ==> attractor[v] == 1
      ensures i >= 0 && Fair(View(), player, f) ==>
        forall v: nat {:trigger attractor[v]} :: v < attractor.Length ==>
            (attractor[v] == 1 <==> v in Layer(View(), player, f, i))
      ensures i < 0 ==> forall v: nat {:trigger attractor[v]} ::
          v < attractor.Length && InAttractor(View(), player, f, v) ==> attractor[v] == 1
      ensures i < 0 ==>
        (CountsRight(View(), player, f) <==>
         forall v: nat {:trigger attractor[v]} :: v < attractor.Length ==>
             (attractor[v] == 1 <==> InAttractor(View(), player, f, v)))
      ensures i < 0 && Fair(View(), player, f) ==> CountsRight(View(), player, f)
    {
      attractor, rounds := Run(View(), f, player, i);
      ghost var a := View();
      if i >= 0 {
        Bounded(a, player, f, rounds, i);
      } else {
        forall v: nat | InAttractor(a, player, f, v) ensures v in Flat(rounds) {
          RunCoversAttractor(a, player, f, rounds, v);
        }
        MarksAreValues(a, player, f, rounds, attractor);
        ExactIffCountsRight(a, player, f, rounds);
      }
    }
  }

  lemma Bounded(a: Arena, player: int, f: seq<nat>, rounds: seq<seq<nat>>, i: nat)
    requires a.Valid() && IsRun(a, player, f, rounds)
        && (|rounds| == i + 1 || (|rounds| <= i && rounds[|rounds| - 1] == []))
    ensures forall v: nat {:trigger v in Flat(rounds)} :: v in Layer(a, player, f, i) ==> v in Flat(rounds)
    ensures Fair(a, player, f) ==> forall v: nat {:trigger v in Flat(rounds)} :: v in Flat(rounds) <==>
        v in Layer(a, player, f, i)
  {
    forall v: nat | v in Layer(a, player, f, i) ensures v in Flat(rounds) {
      BoundedRunCovers(a, player, f, rounds, i, v);
    }
    if Fair(a, player, f) {
      forall v: nat ensures v in Flat(rounds) <==> v in Layer(a, player, f, i) {
        FairBoundedRun(a, player, f, rounds, i, v);
      }
    }
  }

  lemma MarksAreValues(a: Arena, player: int, f: seq<nat>, rounds: seq<seq<nat>>, attractor: array<int>)
    requires a.Valid() && IsRun(a, player, f, rounds) && attractor.Length == a.Size()
    requires forall v: nat {:trigger attractor[v]} :: v < attractor.Length ==>
        (attractor[v] == if v in Flat(rounds) then 1 else 0)
    ensures MarksAre(a, player, f, rounds) <==> forall v: nat {:trigger attractor[v]} :: v < attractor.Length ==>
        (attractor[v] == 1 <==> InAttractor(a, player, f, v))
  {
    forall v: nat | v in Flat(rounds) ensures v < a.Size() {
      RunInside(a, player, f, rounds, v);
    }
    if forall v: nat {:trigger attractor[v]} :: v < attractor.Length ==>
        (attractor[v] == 1 <==> InAttractor(a, player, f, v)) {
      forall v: nat ensures v in Flat(rounds) <==> InAttractor(a, player, f, v) {
        if v < attractor.Length {
          var _ := attractor[v];
        }
      }
    }
    if MarksAre(a, player, f, rounds) {
      forall v: nat | v < attractor.Length ensures attractor[v] == 1 <==> InAttractor(a, player, f, v) {
        assert v in Flat(rounds) <==> InAttractor(a, player, f, v);
      }
    }
  }
}
