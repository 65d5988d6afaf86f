/** What the worklist constructions share: items numbered in the order in which they are met. */
module Numberings {
  import opened Languages

  /** number gives each item that has been met its position in the order of discovery. */
  ghost predicate Numbering<T(!new)>(items: seq<T>, number: map<T, State>) {
    && (forall i :: 0 <= i < |items| ==> items[i] in number && number[items[i]] == i)
    && (forall p {:trigger p in number} {:trigger number[p]} :: p in number ==>
         number[p] < |items| && items[number[p]] == p)
  }

  ghost predicate Extends<T(!new)>(number: map<T, State>, more: map<T, State>) {
    forall p {:trigger p in number} :: p in number ==> p in more && more[p] == number[p]
  }

  /** A numbering that knows no further item has numbered nothing more. */
  lemma SameKeysSameCount<T(!new)>(number: map<T, State>, more: map<T, State>, items: seq<T>, items': seq<T>)
    requires Numbering(items, number) && Numbering(items', more) && items <= items'
    ensures more.Keys == number.Keys ==> items == items'
  {
    if |items| < |items'| {
      var p := items'[|items|];
      assert p in more && more[p] == |items|;
      assert forall i :: 0 <= i < |items| ==> items[i] in more && more[items[i]] == i;
    }
  }
}
