/** Joining pieces in order. */
module Sequences {

  function Concat<T>(pieces: seq<seq<T>>): seq<T> {
    if pieces == [] then [] else pieces[0] + Concat(pieces[1..])
  }

  lemma ConcatEmpty<T>(pieces: seq<seq<T>>)
    requires pieces == []
    ensures Concat(pieces) == []
  {
  }

  lemma {:induction false} ConcatSnoc<T>(pieces: seq<seq<T>>, last: seq<T>)
    ensures Concat(pieces + [last]) == Concat(pieces) + last
  {
    if pieces == [] {
      assert [last][1..] == [];
    } else {
      ConcatSnoc(pieces[1..], last);
      assert (pieces + [last])[1..] == pieces[1..] + [last];
    }
  }

  /** All pieces but the last, and the last. */
  lemma ConcatLast<T>(pieces: seq<seq<T>>)
    requires pieces != []
    ensures Concat(pieces) == Concat(pieces[..|pieces| - 1]) + pieces[|pieces| - 1]
  {
    assert pieces == pieces[..|pieces| - 1] + [pieces[|pieces| - 1]];
    ConcatSnoc(pieces[..|pieces| - 1], pieces[|pieces| - 1]);
  }
}
