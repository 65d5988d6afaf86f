/** Finite sets of numbers and the pigeonhole principle. */
module Counting {

  ghost function Numbers(n: nat): (s: set<nat>)
    ensures |s| == n && forall v: nat {:trigger v in s} :: v in s <==> v < n
  {
    if n == 0 then {} else Numbers(n - 1) + {n - 1}
  }

  /** More entries than values: some value comes twice. */
  lemma {:induction false} Pigeonhole<T>(f: seq<T>, s: set<T>) returns (i: nat, j: nat)
    requires |f| > |s| && forall h :: 0 <= h < |f| ==> f[h] in s
    ensures i < j < |f| && f[i] == f[j]
    decreases |f|
  {
    var last := |f| - 1;
    if h :| 0 <= h < last && f[h] == f[last] {
      i, j := h, last;
    } else {
      i, j := Pigeonhole(f[..last], s - {f[last]});
    }
  }

  lemma {:induction false} SubsetSize<T>(s: set<T>, t: set<T>)
    requires s <= t
    ensures |s| <= |t|
  {
    if x :| x in s {
      SubsetSize(s - {x}, t - {x});
    }
  }
}
