/** Refinable partitions: a permutation of the elements in which every set is a contiguous stretch, marked elements in
    front. */
module Partitions {
  import opened Counting

  /** What the arrays of a Partition hold. Elements are numbers below Size(). */
  datatype Shape = Shape(elements: seq<nat>, locations: seq<nat>, setNo: seq<nat>, first: seq<nat>, past: seq<nat>,
    marked: seq<nat>, touched: seq<nat>, setCount: nat) {
    function Size(): nat {
      |elements|
    }

    ghost predicate Lengths() {
      |locations| == |setNo| == |first| == |past| == |marked| == |elements| && setCount <= |elements|
    }

    /** elements and locations are inverse permutations. */
    ghost predicate Permutes()
      requires Lengths()
    {
      && (forall e {:trigger locations[e]} :: 0 <= e < Size() ==> locations[e] < Size() && elements[locations[e]] == e)
      && (forall i {:trigger elements[i]} :: 0 <= i < Size() ==> elements[i] < Size() && locations[elements[i]] == i)
    }

    /** Every element lies in the stretch of its set, and a stretch holds the elements of one set. */
    ghost predicate Contiguous()
      requires Lengths() && Permutes()
    {
      && (forall s {:trigger first[s]} {:trigger past[s]} :: 0 <= s < setCount ==> first[s] < past[s] <= Size())
      && (forall e {:trigger setNo[e]} :: 0 <= e < Size() ==>
           setNo[e] < setCount && first[setNo[e]] <= locations[e] < past[setNo[e]])
      && (forall s, i {:trigger first[s], elements[i]} :: 0 <= s < setCount && first[s] <= i < past[s] ==>
           setNo[elements[i]] == s)
    }

    /** The touched sets are those with marked elements. */
    ghost predicate Touches()
      requires Lengths()
    {
      && (forall s {:trigger marked[s]} :: 0 <= s < setCount ==>
           (marked[s] > 0 <==> s in touched) && first[s] + marked[s] <= past[s])
      && (forall s {:trigger s in touched} :: s in touched ==> s < setCount)
      && (forall i, j {:trigger touched[i], touched[j]} :: 0 <= i < j < |touched| ==> touched[i] != touched[j])
    }

    ghost predicate Fits() {
      Lengths() && Permutes() && Contiguous() && Touches()
    }

    ghost predicate IsMarked(e: nat)
      requires Fits() && e < Size()
    {
      locations[e] < first[setNo[e]] + marked[setNo[e]]
    }

    /** mark(e): e changes places with the first unmarked element of its set. */
    function Mark(e: nat): Shape
      requires Lengths() && e < Size() && setNo[e] < Size() && locations[e] < Size()
          && first[setNo[e]] + marked[setNo[e]] < Size()
      requires elements[first[setNo[e]] + marked[setNo[e]]] < Size()
    {
      var s := setNo[e];
      var i, j := locations[e], first[s] + marked[s];
      Shape(elements[i := elements[j]][j := e], locations[elements[j] := i][e := j], setNo, first, past,
            marked[s := marked[s] + 1], if marked[s] == 0 then touched + [s] else touched, setCount)
    }
  }

  lemma MarkIsDefined(p: Shape, e: nat)
    requires p.Fits() && e < p.Size() && !p.IsMarked(e)
    ensures p.setNo[e] < p.Size() && p.locations[e] < p.Size() && p.first[p.setNo[e]] + p.marked[p.setNo[e]] < p.Size()
    ensures p.elements[p.first[p.setNo[e]] + p.marked[p.setNo[e]]] < p.Size()
  {
  }

  /** The element that e changes places with is in the same set. */
  lemma MarkPartner(p: Shape, e: nat) returns (f: nat, i: nat, j: nat)
    requires p.Fits() && e < p.Size() && !p.IsMarked(e)
    ensures i == p.locations[e] && j == p.first[p.setNo[e]] + p.marked[p.setNo[e]] < p.Size() && f == p.elements[j]
        && f < p.Size()
    ensures p.locations[f] == j && p.elements[i] == e && p.setNo[f] == p.setNo[e] && p.setNo[e] < p.Size()
        && i < p.Size()
    ensures p.first[p.setNo[e]] <= j <= i < p.past[p.setNo[e]]
  {
    MarkIsDefined(p, e);
    i, j := p.locations[e], p.first[p.setNo[e]] + p.marked[p.setNo[e]];
    f := p.elements[j];
  }

  lemma MarkPermutes(p: Shape, e: nat)
    requires p.Fits() && e < p.Size() && !p.IsMarked(e)
    ensures p.Mark(e).Lengths() && p.Mark(e).Permutes()
  {
    var f, i, j := MarkPartner(p, e);
    var q := p.Mark(e);
    forall x | 0 <= x < q.Size() ensures q.locations[x] < q.Size() && q.elements[q.locations[x]] == x {
      var _ := p.locations[x];
    }
    forall y | 0 <= y < q.Size() ensures q.elements[y] < q.Size() && q.locations[q.elements[y]] == y {
      var _ := p.elements[y];
    }
  }

  lemma MarkIsContiguous(p: Shape, e: nat)
    requires p.Fits() && e < p.Size() && !p.IsMarked(e)
    ensures p.Mark(e).Lengths() && p.Mark(e).Permutes() && p.Mark(e).Contiguous()
  {
    MarkPermutes(p, e);
    var f, i, j := MarkPartner(p, e);
    var q := p.Mark(e);
    forall x | 0 <= x < q.Size() ensures q.setNo[x] < q.setCount
        && q.first[q.setNo[x]] <= q.locations[x] < q.past[q.setNo[x]]
    {
      var _ := p.setNo[x];
    }
    forall s, y | 0 <= s < q.setCount && q.first[s] <= y < q.past[s] ensures q.setNo[q.elements[y]] == s {
      assert p.setNo[p.elements[y]] == s;
      assert p.setNo[p.elements[i]] == p.setNo[p.elements[j]];
    }
  }

  lemma MarkTouches(p: Shape, e: nat)
    requires p.Fits() && e < p.Size() && !p.IsMarked(e)
    ensures p.Mark(e).Lengths() && p.Mark(e).Touches()
  {
    MarkIsDefined(p, e);
  }

  /** Marking keeps the partition and adds exactly one marked element. */
  lemma MarkMarks(p: Shape, e: nat)
    requires p.Fits() && e < p.Size() && !p.IsMarked(e)
    ensures p.Mark(e).Fits() && p.Mark(e).Size() == p.Size()
    ensures forall f: nat {:trigger p.Mark(e).IsMarked(f)} :: f < p.Size() ==>
        (p.Mark(e).IsMarked(f) <==> f == e || p.IsMarked(f))
  {
    MarkIsContiguous(p, e);
    MarkTouches(p, e);
    var s := p.setNo[e];
    var j := p.first[s] + p.marked[s];
    assert p.setNo[p.elements[j]] == s && p.locations[p.elements[j]] == j;
  }

  // ----- split -----

  /** A set with two elements leaves room for one more set. */
  lemma RoomForOneMore(p: Shape, s: nat)
    requires p.Fits() && s < p.setCount && p.past[s] - p.first[s] >= 2
    ensures p.setCount < p.Size()
  {
    var f := seq(p.setCount + 1, i requires 0 <= i < p.setCount + 1 => if i < p.setCount then p.first[i]
      else p.first[s] + 1);
    forall i, j | 0 <= i < j < |f| ensures f[i] != f[j] {
      assert p.setNo[p.elements[p.first[i]]] == i;
      assert p.setNo[p.elements[p.first[s] + 1]] == s;
      assert j < p.setCount ==> p.setNo[p.elements[p.first[j]]] == j;
    }
    if p.setCount >= p.Size() {
      forall h | 0 <= h < |f| ensures f[h] in Numbers(p.Size()) {
        assert h < p.setCount ==> f[h] == p.first[h];
      }
      var i, j := Pigeonhole(f, Numbers(p.Size()));
    }
  }

  /** The stretch [lo, hi) of set s becomes the new set; [lo2, hi2) is what s keeps. */
  ghost predicate Carves(p: Shape, q: Shape, s: nat, lo: nat, hi: nat, lo2: nat, hi2: nat)
    requires p.Fits() && s < p.setCount < p.Size()
  {
    && q.Lengths() && q.elements == p.elements && q.locations == p.locations && q.setCount == p.setCount + 1
    && lo < hi && lo2 < hi2 && ((lo == p.first[s] && hi == lo2 && hi2 == p.past[s])
         || (lo2 == p.first[s] && hi2 == lo && hi == p.past[s]))
    && q.first == p.first[p.setCount := lo][s := lo2] && q.past == p.past[p.setCount := hi][s := hi2]
    && q.marked == p.marked[s := 0][p.setCount := 0]
    && p.touched == q.touched + [s]
    && forall e {:trigger q.setNo[e]} :: 0 <= e < p.Size() ==> q.setNo[e] == if lo <= p.locations[e] < hi
         then p.setCount else p.setNo[e]
  }

  lemma CarvedElement(p: Shape, q: Shape, s: nat, lo: nat, hi: nat, lo2: nat, hi2: nat, e: nat)
    requires p.Fits() && s < p.setCount < p.Size() && Carves(p, q, s, lo, hi, lo2, hi2) && e < p.Size()
    ensures q.setNo[e] < q.setCount && q.first[q.setNo[e]] <= q.locations[e] < q.past[q.setNo[e]]
  {
    assert p.first[p.setNo[e]] <= p.locations[e] < p.past[p.setNo[e]];
    assert p.elements[p.locations[e]] == e;
  }

  lemma CarvedPosition(p: Shape, q: Shape, s: nat, lo: nat, hi: nat, lo2: nat, hi2: nat, r: nat, i: nat)
    requires p.Fits() && s < p.setCount < p.Size() && Carves(p, q, s, lo, hi, lo2, hi2)
    requires r < q.setCount && q.first[r] <= i < q.past[r] <= p.Size()
    ensures q.setNo[q.elements[i]] == r
  {
    assert p.locations[p.elements[i]] == i;
    if r != s && r < p.setCount {
      assert p.setNo[p.elements[i]] == r;
      assert p.setNo[p.elements[lo]] == s;
    } else {
      assert p.setNo[p.elements[i]] == s;
    }
  }

  lemma CarvedIsContiguous(p: Shape, q: Shape, s: nat, lo: nat, hi: nat, lo2: nat, hi2: nat)
    requires p.Fits() && s < p.setCount < p.Size() && Carves(p, q, s, lo, hi, lo2, hi2)
    ensures q.Permutes() && q.Contiguous()
  {
    assert q.Permutes();
    forall e | 0 <= e < p.Size() ensures q.setNo[e] < q.setCount
        && q.first[q.setNo[e]] <= q.locations[e] < q.past[q.setNo[e]]
    {
      CarvedElement(p, q, s, lo, hi, lo2, hi2, e);
    }
    forall r, i | 0 <= r < q.setCount && q.first[r] <= i < q.past[r] ensures q.setNo[q.elements[i]] == r {
      CarvedPosition(p, q, s, lo, hi, lo2, hi2, r, i);
    }
  }

  lemma CarvedTouches(p: Shape, q: Shape, s: nat, lo: nat, hi: nat, lo2: nat, hi2: nat)
    requires p.Fits() && s < p.setCount < p.Size() && Carves(p, q, s, lo, hi, lo2, hi2)
    ensures q.Touches()
  {
    assert p.touched[|q.touched|] == s;
    assert forall i {:trigger q.touched[i]} :: 0 <= i < |q.touched| ==> p.touched[i] == q.touched[i];
    forall r | 0 <= r < q.setCount ensures (q.marked[r] > 0 <==> r in q.touched)
        && q.first[r] + q.marked[r] <= q.past[r]
    {
      if r < p.setCount && r != s {
        assert q.marked[r] == p.marked[r];
        assert r in p.touched <==> r in q.touched;
      } else if r == s {
        assert s !in q.touched;
      } else {
        assert r in q.touched ==> r in p.touched;
      }
    }
    forall r | r in q.touched ensures r < q.setCount {
      assert r in p.touched;
    }
    forall i, j | 0 <= i < j < |q.touched| ensures q.touched[i] != q.touched[j] {
      assert q.touched[i] == p.touched[i] && q.touched[j] == p.touched[j];
    }
  }

  /** The touched sets are as they were. */
  ghost predicate StillWhole(p0: Shape, p: Shape)
    requires p0.Lengths() && p.Lengths() && p.Size() == p0.Size()
  {
    && |p.touched| <= |p0.touched| && p.touched == p0.touched[..|p.touched|]
    && (forall s {:trigger s in p.touched} :: s in p.touched ==>
         s < p0.setCount && p.first[s] == p0.first[s] && p.past[s] == p0.past[s] && p.marked[s] == p0.marked[s])
    && (forall e {:trigger p.setNo[e]} :: 0 <= e < p.Size() && p0.setNo[e] in p.touched ==> p.setNo[e] == p0.setNo[e])
  }

  /** Elements stay together when both are marked or both are not; those of different sets stay apart. */
  ghost predicate Together(p0: Shape, p: Shape, e: nat, f: nat)
    requires p0.Fits() && p.Lengths() && p.Size() == p0.Size() && e < p.Size() && f < p.Size()
  {
    && (p.setNo[e] == p.setNo[f] ==> p0.setNo[e] == p0.setNo[f] && (p0.setNo[e] !in p.touched ==>
         (p0.IsMarked(e) <==> p0.IsMarked(f))))
    && (p0.setNo[e] == p0.setNo[f] && (p0.IsMarked(e) <==> p0.IsMarked(f)) ==> p.setNo[e] == p.setNo[f])
  }

  /** The loop of split, some sets still to come. */
  ghost predicate Splitting(p0: Shape, p: Shape) {
    && p0.Fits() && p.Fits() && p.elements == p0.elements && p.locations == p0.locations && p0.setCount <= p.setCount
    && StillWhole(p0, p)
    && (forall e {:trigger p.setNo[e]} :: 0 <= e < p.Size() ==> p.setNo[e] == p0.setNo[e] || p.setNo[e] >= p0.setCount)
    && (forall e: nat, f: nat {:trigger Together(p0, p, e, f)} :: e < p.Size() && f < p.Size() ==>
         Together(p0, p, e, f))
  }

  lemma TouchedIsDistinct(p: Shape, q: Shape, s: nat)
    requires p.Lengths() && p.Touches() && p.touched == q.touched + [s]
    ensures s !in q.touched && s < p.setCount && forall r :: r in q.touched ==> r in p.touched
  {
    assert p.touched[|q.touched|] == s;
    assert s in p.touched;
    assert forall i {:trigger q.touched[i]} :: 0 <= i < |q.touched| ==>
        p.touched[i] == q.touched[i] && p.touched[i] != s;
  }

  /** The set on top of the stack has all its elements marked and stays whole. */
  ghost predicate LeavesWhole(p: Shape, q: Shape, s: nat)
    requires p.Fits() && s < p.setCount
  {
    && q == p.(touched := q.touched, marked := p.marked[s := 0]) && p.touched == q.touched + [s]
         && p.first[s] + p.marked[s] == p.past[s]
  }

  lemma WholeStep(p0: Shape, p: Shape, q: Shape, s: nat)
    requires Splitting(p0, p) && s < p.setCount && LeavesWhole(p, q, s)
    ensures Splitting(p0, q)
  {
    TouchedIsDistinct(p, q, s);
    WholeFits(p, q, s);
    assert q.touched == p0.touched[..|q.touched|];
    forall e: nat, f: nat | e < p.Size() && f < p.Size() ensures Together(p0, q, e, f) {
      assert Together(p0, p, e, f);
      var _ := p.setNo[e];
      var _ := p.setNo[f];
      assert p0.setNo[e] == s ==> p0.IsMarked(e);
      assert p0.setNo[f] == s ==> p0.IsMarked(f);
    }
  }

  lemma WholeFits(p: Shape, q: Shape, s: nat)
    requires p.Fits() && s < p.setCount && LeavesWhole(p, q, s)
    ensures q.Fits()
  {
    TouchedIsDistinct(p, q, s);
    assert forall i {:trigger q.touched[i]} :: 0 <= i < |q.touched| ==> p.touched[i] == q.touched[i];
    assert forall r :: r in p.touched <==> r in q.touched || r == s;
  }

  lemma CarveStep(p0: Shape, p: Shape, q: Shape, s: nat, lo: nat, hi: nat, lo2: nat, hi2: nat)
    requires Splitting(p0, p) && s < p.setCount < p.Size() && Carves(p, q, s, lo, hi, lo2, hi2)
    requires p.first[s] + p.marked[s] < p.past[s] && (lo == p.first[s] + p.marked[s] || hi == p.first[s] + p.marked[s])
    ensures Splitting(p0, q)
  {
    TouchedIsDistinct(p, q, s);
    CarvedIsContiguous(p, q, s, lo, hi, lo2, hi2);
    CarvedTouches(p, q, s, lo, hi, lo2, hi2);
    CarveKeepsWhole(p0, p, q, s, lo, hi, lo2, hi2);
    forall e: nat | e < p.Size() ensures q.setNo[e] == p0.setNo[e] || q.setNo[e] >= p0.setCount {
      var _ := p.setNo[e];
    }
    forall e: nat, f: nat | e < p.Size() && f < p.Size() ensures Together(p0, q, e, f) {
      CarveTogether(p0, p, q, s, lo, hi, lo2, hi2, e, f);
    }
  }

  lemma CarveKeepsWhole(p0: Shape, p: Shape, q: Shape, s: nat, lo: nat, hi: nat, lo2: nat, hi2: nat)
    requires Splitting(p0, p) && s < p.setCount < p.Size() && Carves(p, q, s, lo, hi, lo2, hi2)
    ensures StillWhole(p0, q)
  {
    TouchedIsDistinct(p, q, s);
    assert q.touched == p0.touched[..|q.touched|];
    forall e | 0 <= e < p.Size() && p0.setNo[e] in q.touched ensures q.setNo[e] == p0.setNo[e] {
      assert p.setNo[e] == p0.setNo[e];
      StretchOf(p, s, e);
    }
  }

  /** An element outside a set lies outside its stretch. */
  lemma StretchOf(p: Shape, s: nat, e: nat)
    requires p.Fits() && s < p.setCount && e < p.Size()
    ensures p.first[s] <= p.locations[e] < p.past[s] <==> p.setNo[e] == s
  {
    assert p.elements[p.locations[e]] == e;
  }

  lemma CarveTogether(p0: Shape, p: Shape, q: Shape, s: nat, lo: nat, hi: nat, lo2: nat, hi2: nat, e: nat, f: nat)
    requires Splitting(p0, p) && s < p.setCount < p.Size() && Carves(p, q, s, lo, hi, lo2, hi2)
    requires p.first[s] + p.marked[s] < p.past[s] && (lo == p.first[s] + p.marked[s] || hi == p.first[s] + p.marked[s])
    requires e < p.Size() && f < p.Size() && q.Lengths() && q.Size() == p.Size()
    ensures Together(p0, q, e, f)
  {
    TouchedIsDistinct(p, q, s);
    assert Together(p0, p, e, f);
    StretchOf(p, s, e);
    StretchOf(p, s, f);
    CarvedMark(p0, p, q, s, lo, hi, lo2, hi2, e);
    CarvedMark(p0, p, q, s, lo, hi, lo2, hi2, f);
  }

  /** The new set takes the marked elements of s or the others. */
  lemma CarvedMark(p0: Shape, p: Shape, q: Shape, s: nat, lo: nat, hi: nat, lo2: nat, hi2: nat, e: nat)
    requires Splitting(p0, p) && s < p.setCount < p.Size() && Carves(p, q, s, lo, hi, lo2, hi2)
    requires p.first[s] + p.marked[s] < p.past[s] && (lo == p.first[s] + p.marked[s] || hi == p.first[s] + p.marked[s])
    requires e < p.Size() && q.Lengths() && q.Size() == p.Size()
    ensures p.setNo[e] == s <==> p0.setNo[e] == s
    ensures q.setNo[e] == if p.setNo[e] == s && (p0.IsMarked(e) <==> hi == p.first[s] + p.marked[s]) then p.setCount
        else p.setNo[e]
  {
    TouchedIsDistinct(p, q, s);
    StretchOf(p, s, e);
    assert s in p.touched;
    assert p.setNo[e] == p0.setNo[e] || p.setNo[e] >= p0.setCount;
    assert p0.setNo[e] == s ==> (p0.IsMarked(e) <==> p.locations[e] < p.first[s] + p.marked[s]);
  }

  /** What split does: two elements stay in one set when they were and both or none of them was marked. An old number
      keeps a part of its old set. */
  ghost predicate Splits(p: Shape, q: Shape) {
    && p.Fits() && q.Fits() && q.elements == p.elements && q.locations == p.locations && p.setCount <= q.setCount
         && q.touched == []
    && (forall e {:trigger q.setNo[e]} :: 0 <= e < p.Size() ==> q.setNo[e] == p.setNo[e] || q.setNo[e] >= p.setCount)
    && (forall e: nat, f: nat {:trigger q.setNo[e], q.setNo[f]} :: e < p.Size() && f < p.Size() ==>
          (q.setNo[e] == q.setNo[f] <==> p.setNo[e] == p.setNo[f] && (p.IsMarked(e) <==> p.IsMarked(f))))
  }

  lemma SplittingEnds(p0: Shape, p: Shape)
    requires Splitting(p0, p) && p.touched == []
    ensures Splits(p0, p)
  {
    forall e: nat, f: nat | e < p.Size() && f < p.Size()
      ensures p.setNo[e] == p.setNo[f] <==> p0.setNo[e] == p0.setNo[f] && (p0.IsMarked(e) <==> p0.IsMarked(f))
    {
      assert Together(p0, p, e, f);
    }
  }

  lemma SplittingStarts(p: Shape)
    requires p.Fits()
    ensures Splitting(p, p)
  {
    assert p.touched[..|p.touched|] == p.touched;
    forall e: nat, f: nat | e < p.Size() && f < p.Size() ensures Together(p, p, e, f) {
      assert p.setNo[e] !in p.touched ==> p.marked[p.setNo[e]] == 0;
    }
  }

  /** The element's set is divided, and the element is in the part that is not larger; of two equal parts, in the marked
      one. */
  ghost predicate InSmallerPart(p: Shape, e: nat)
    requires p.Fits() && e < p.Size()
  {
    var s := p.setNo[e];
    var rest := p.past[s] - p.first[s] - p.marked[s];
    p.marked[s] > 0 && rest > 0 && (p.IsMarked(e) <==> p.marked[s] <= rest)
  }

  /** What has got a new number: the smaller parts of the sets no longer on the stack. */
  ghost predicate Moved(p0: Shape, p: Shape)
    requires p0.Fits() && p.Lengths() && p.Size() == p0.Size()
  {
    forall e: nat {:trigger p.setNo[e]} :: e < p.Size() ==>
      (p.setNo[e] != p0.setNo[e] <==> p0.setNo[e] !in p.touched && InSmallerPart(p0, e))
  }

  lemma NothingMoved(p: Shape)
    requires p.Fits()
    ensures Moved(p, p)
  {
  }

  lemma WholeMoved(p0: Shape, p: Shape, q: Shape, s: nat)
    requires Splitting(p0, p) && Moved(p0, p) && s < p.setCount && LeavesWhole(p, q, s)
        && q.Lengths() && q.Size() == p.Size()
    ensures Moved(p0, q)
  {
    TouchedIsDistinct(p, q, s);
    assert s in p.touched;
    forall e: nat | e < p.Size()
        ensures q.setNo[e] != p0.setNo[e] <==> p0.setNo[e] !in q.touched && InSmallerPart(p0, e)
    {
      assert p.setNo[e] != p0.setNo[e] <==> p0.setNo[e] !in p.touched && InSmallerPart(p0, e);
      assert p0.setNo[e] in p.touched <==> p0.setNo[e] in q.touched || p0.setNo[e] == s;
    }
  }

  lemma CarveMoved(p0: Shape, p: Shape, q: Shape, s: nat, lo: nat, hi: nat, lo2: nat, hi2: nat)
    requires Splitting(p0, p) && Moved(p0, p) && s < p.setCount < p.Size() && Carves(p, q, s, lo, hi, lo2, hi2)
    requires p.first[s] < p.first[s] + p.marked[s] < p.past[s]
    requires lo == p.first[s] + p.marked[s] || hi == p.first[s] + p.marked[s]
    requires hi == p.first[s] + p.marked[s] <==> p.marked[s] <= p.past[s] - p.first[s] - p.marked[s]
    requires q.Lengths() && q.Size() == p.Size()
    ensures Moved(p0, q)
  {
    TouchedIsDistinct(p, q, s);
    assert s in p.touched;
    forall e: nat | e < p.Size()
        ensures q.setNo[e] != p0.setNo[e] <==> p0.setNo[e] !in q.touched && InSmallerPart(p0, e)
    {
      CarvedMark(p0, p, q, s, lo, hi, lo2, hi2, e);
      assert p.setNo[e] != p0.setNo[e] <==> p0.setNo[e] !in p.touched && InSmallerPart(p0, e);
      assert p0.setNo[e] in p.touched <==> p0.setNo[e] in q.touched || p0.setNo[e] == s;
    }
  }

  lemma NothingMarked(p: Shape)
    requires p.Fits() && p.touched == []
    ensures forall e: nat {:trigger p.IsMarked(e)} :: e < p.Size() ==> !p.IsMarked(e)
  {
    forall e: nat | e < p.Size() ensures !p.IsMarked(e) {
      assert p.marked[p.setNo[e]] == 0;
    }
  }

  function Constantly(n: nat, x: nat): seq<nat> {
    seq(n, _ => x)
  }

  function InitialShape(size: nat): Shape {
    Shape(seq(size, i => i), seq(size, i => i), Constantly(size, 0), Constantly(size, 0), Constantly(size, size),
      Constantly(size, 0), [], if size == 0 then 0 else 1)
  }

  lemma InitialPermutes(size: nat)
    ensures InitialShape(size).Lengths() && InitialShape(size).Permutes()
  {
  }

  lemma InitialIsContiguous(size: nat)
    ensures InitialShape(size).Lengths() && InitialShape(size).Permutes() && InitialShape(size).Contiguous()
  {
    InitialPermutes(size);
    var p := InitialShape(size);
    forall e | 0 <= e < size ensures p.setNo[e] == 0 && p.locations[e] == e && p.elements[e] == e {}
    forall s | 0 <= s < p.setCount ensures p.first[s] == 0 && p.past[s] == size && s == 0 {}
  }

  lemma InitialFits(size: nat)
    ensures InitialShape(size).Fits()
  {
    InitialIsContiguous(size);
  }

  // ----- the object -----

  class Partition {
    const elements: array<nat>
    const locations: array<nat>
    const setNo: array<nat>
    const first: array<nat>
    const past: array<nat>
    const markedElementCount: array<nat>
    const touchedSets: array<nat>
    var touchedSetCount: nat
    var setCount: nat

    ghost const repr: set<object>

    /** The object owns its arrays and they all differ. */
    ghost predicate Separate()
      reads this
    {
      && {this, elements, locations, setNo, first, past, markedElementCount, touchedSets} <= repr
      && elements != locations && elements != setNo && elements != first && elements != past
           && elements != markedElementCount && elements != touchedSets
      && locations != setNo && locations != first && locations != past && locations != markedElementCount
           && locations != touchedSets
      && setNo != first && setNo != past && setNo != markedElementCount && setNo != touchedSets
      && first != past && first != markedElementCount && first != touchedSets
      && past != markedElementCount && past != touchedSets && markedElementCount != touchedSets
      && locations.Length == setNo.Length == first.Length == past.Length == markedElementCount.Length ==
           touchedSets.Length == elements.Length
      && touchedSetCount <= touchedSets.Length
    }

    ghost function View(): Shape
      requires Separate()
      reads this, repr
    {
      Shape(elements[..], locations[..], setNo[..], first[..], past[..], markedElementCount[..],
        touchedSets[..touchedSetCount], setCount)
    }

    ghost predicate Valid()
      reads this, repr
    {
      Separate() && View().Fits()
    }

    constructor (size: nat)
      ensures Separate() && elements.Length == size && touchedSetCount == 0 && fresh(repr)
    {
      elements, locations, setNo, first, past := new nat[size], new nat[size], new nat[size], new nat[size],
        new nat[size];
      markedElementCount, touchedSets := new nat[size], new nat[size];
      touchedSetCount, setCount := 0, 0;
      repr := {this, elements, locations, setNo, first, past, markedElementCount, touchedSets};
    }

    /** One set with all the elements, none of them marked. */
    method Gather()
      requires Separate() && touchedSetCount == 0
      modifies repr
      ensures Valid() && View() == InitialShape(elements.Length)
    {
      forall i | 0 <= i < elements.Length { elements[i] := i; }
      forall i | 0 <= i < elements.Length { locations[i] := i; }
      forall i | 0 <= i < elements.Length { setNo[i] := 0; }
      forall i | 0 <= i < elements.Length { first[i] := 0; }
      forall i | 0 <= i < elements.Length { past[i] := elements.Length; }
      forall i | 0 <= i < elements.Length { markedElementCount[i] := 0; }
      setCount := if elements.Length == 0 then 0 else 1;
      ghost var p := InitialShape(elements.Length);
      assert elements[..] == p.elements && locations[..] == p.locations && setNo[..] == p.setNo && first[..] == p.first;
      assert past[..] == p.past && markedElementCount[..] == p.marked;
      assert View() == p;
      InitialFits(elements.Length);
    }

    /** e, at position i, changes places with the element at position j. */
    method Exchange(e: nat, i: nat, j: nat)
      requires elements != locations && i < elements.Length && j < elements.Length
      requires e < locations.Length && elements[j] < locations.Length
      modifies elements, locations
      ensures elements[..] == old(elements[..])[i := old(elements[j])][j := e]
      ensures locations[..] == old(locations[..])[old(elements[j]) := i][e := j]
    {
      elements[i] := elements[j];
      locations[elements[i]] := i;
      elements[j] := e;
      locations[e] := j;
    }

    /** One more marked element in set s. */
    method Count(s: nat)
      requires markedElementCount != touchedSets && s < markedElementCount.Length && (markedElementCount[s] == 0 ==>
          touchedSetCount < touchedSets.Length)
      requires touchedSetCount <= touchedSets.Length
      modifies this`touchedSetCount, markedElementCount, touchedSets
      ensures markedElementCount[..] == old(markedElementCount[..])[s := old(markedElementCount[s]) + 1]
      ensures touchedSetCount <= touchedSets.Length
      ensures touchedSets[..touchedSetCount] == old(touchedSets[..touchedSetCount]) + if old(markedElementCount[s]) == 0
          then [s] else []
    {
      if markedElementCount[s] == 0 {
        touchedSets[touchedSetCount] := s;
        touchedSetCount := touchedSetCount + 1;
      }
      markedElementCount[s] := markedElementCount[s] + 1;
    }

    method Move(e: nat)
      requires Separate() && e < elements.Length && setNo[e] < elements.Length && locations[e] < elements.Length
      requires first[setNo[e]] + markedElementCount[setNo[e]] < elements.Length
      requires elements[first[setNo[e]] + markedElementCount[setNo[e]]] < elements.Length
      requires setCount <= elements.Length && (markedElementCount[setNo[e]] == 0 ==> touchedSetCount < elements.Length)
      modifies repr
      ensures Separate() && View() == old(View()).Mark(e)
    {
      var s := setNo[e];
      Exchange(e, locations[e], first[s] + markedElementCount[s]);
      Count(s);
    }

    /** Marks an element that is not marked yet. */
    method Mark(e: nat)
      requires Valid() && e < elements.Length && !View().IsMarked(e)
      modifies repr
      ensures Valid() && View() == old(View()).Mark(e)
      ensures View().setNo == old(View()).setNo && View().first == old(View()).first && View().past == old(View()).past
          && View().setCount == old(View()).setCount
      ensures forall f: nat {:trigger View().IsMarked(f)} :: f < elements.Length ==>
          (View().IsMarked(f) <==> f == e || old(View()).IsMarked(f))
    {
      ghost var p := View();
      MarkIsDefined(p, e);
      MarkMarks(p, e);
      if markedElementCount[setNo[e]] == 0 {
        TouchedFits(p, setNo[e]);
      }
      Move(e);
    }

    /** The elements at positions lo to hi - 1 get a new set number. */
    method Renumber(lo: nat, hi: nat, s: nat)
      requires Separate() && lo <= hi <= elements.Length && View().Lengths() && View().Permutes()
      modifies setNo
      ensures forall e {:trigger setNo[e]} :: 0 <= e < setNo.Length ==> setNo[e] == if lo <= locations[e] < hi then s
          else old(setNo[e])
    {
      ghost var p := View();
      for i := lo to hi
        invariant forall e {:trigger setNo[e]} :: 0 <= e < setNo.Length ==> setNo[e] == if lo <= locations[e] < i then s
            else old(setNo[e])
      {
        assert p.elements[i] < p.Size() && p.locations[p.elements[i]] == i;
        setNo[elements[i]] := s;
        forall e {:trigger setNo[e]} | 0 <= e < setNo.Length
            ensures setNo[e] == if lo <= locations[e] < i + 1 then s else old(setNo[e])
        {
          assert p.elements[p.locations[e]] == e;
        }
      }
    }

    /** The set on top of the stack: left whole when all its elements are marked, otherwise the smaller part becomes a
        new set. */
    method SplitTop(ghost p0: Shape)
      requires Valid() && touchedSetCount > 0 && Splitting(p0, View()) && Moved(p0, View())
      modifies repr
      ensures Valid() && Splitting(p0, View()) && Moved(p0, View()) && touchedSetCount == old(touchedSetCount) - 1
    {
      ghost var p := View();
      touchedSetCount := touchedSetCount - 1;
      var s := touchedSets[touchedSetCount];
      assert p.touched == p.touched[..touchedSetCount] + [s] && s in p.touched;
      var j := first[s] + markedElementCount[s];
      assert p.first[s] + p.marked[s] <= p.past[s];
      if j == past[s] {
        markedElementCount[s] := 0;
        WholeFits(p, View(), s);
        WholeStep(p0, p, View(), s);
        WholeMoved(p0, p, View(), s);
        return;
      }
      RoomForOneMore(p, s);
      Carve(p0, p, s, j);
    }

    /** The smaller part of set s, divided at j, becomes the stretch of the new set. */
    method Divide(s: nat, j: nat) returns (lo: nat, hi: nat, ghost lo2: nat, ghost hi2: nat)
      requires first != past && first.Length == past.Length == markedElementCount.Length && s < setCount < first.Length
      requires first[s] < j == first[s] + markedElementCount[s] < past[s]
      modifies first, past
      ensures first[..] == old(first[..])[setCount := lo][s := lo2]
          && past[..] == old(past[..])[setCount := hi][s := hi2]
      ensures lo < hi && lo2 < hi2 && ((lo == old(first[s]) && hi == lo2 == j && hi2 == old(past[s]))
          || (lo2 == old(first[s]) && hi2 == lo == j && hi == old(past[s])))
      ensures hi == j <==> old(markedElementCount[s]) <= old(past[s]) - j
    {
      if markedElementCount[s] <= past[s] - j {
        first[setCount] := first[s];
        past[setCount] := j;
        first[s] := j;
      } else {
        past[setCount] := past[s];
        first[setCount] := j;
        past[s] := j;
      }
      lo, hi, lo2, hi2 := first[setCount], past[setCount], first[s], past[s];
    }

    method Carve(ghost p0: Shape, ghost p: Shape, s: nat, j: nat)
      requires Separate() && View() == p.(touched := View().touched) && p.touched == View().touched + [s]
      requires Splitting(p0, p) && Moved(p0, p) && s < p.setCount < p.Size()
          && p.first[s] < j == p.first[s] + p.marked[s] < p.past[s]
      modifies repr
      ensures Valid() && Splitting(p0, View()) && Moved(p0, View()) && touchedSetCount == old(touchedSetCount)
    {
      var lo, hi;
      ghost var lo2, hi2;
      lo, hi, lo2, hi2 := Divide(s, j);
      Renumber(lo, hi, setCount);
      markedElementCount[s] := 0;
      markedElementCount[setCount] := 0;
      setCount := setCount + 1;
      ghost var q := View();
      assert q.marked == p.marked[s := 0][p.setCount := 0];
      assert Carves(p, q, s, lo, hi, lo2, hi2);
      CarveStep(p0, p, q, s, lo, hi, lo2, hi2);
      CarveMoved(p0, p, q, s, lo, hi, lo2, hi2);
    }

    /** Splits every set with marked and unmarked elements in two and clears the marks. The part that is not larger gets
        the new number. */
    method Split()
      requires Valid()
      modifies repr
      ensures Valid() && Splits(old(View()), View())
      ensures forall e: nat {:trigger View().setNo[e]} :: e < View().Size() ==>
          (View().setNo[e] != old(View()).setNo[e] <==> InSmallerPart(old(View()), e))
    {
      ghost var p0 := View();
      SplittingStarts(p0);
      NothingMoved(p0);
      while touchedSetCount > 0
        invariant Valid() && Splitting(p0, View()) && Moved(p0, View())
      {
        SplitTop(p0);
      }
      SplittingEnds(p0, View());
    }
  }

  /** A new partition: one set with all the elements, none of them marked. */
  method NewPartition(size: nat) returns (p: Partition)
    ensures fresh(p) && fresh(p.repr) && p.Valid() && p.View() == InitialShape(size)
  {
    p := new Partition(size);
    p.Gather();
  }

  /** There is room on the stack for a set that is not on it. */
  lemma TouchedFits(p: Shape, s: nat)
    requires p.Fits() && s < p.setCount && p.marked[s] == 0
    ensures |p.touched| < p.Size()
  {
    var f := p.touched + [s];
    forall i, j | 0 <= i < j < |f| ensures f[i] != f[j] {
      assert i < |p.touched| ==> f[i] == p.touched[i] && p.touched[i] in p.touched;
    }
    if |p.touched| >= p.Size() {
      forall h | 0 <= h < |f| ensures f[h] in Numbers(p.Size()) {
        assert h < |p.touched| ==> f[h] in p.touched;
      }
      var i, j := Pigeonhole(f, Numbers(p.Size()));
    }
  }
}
