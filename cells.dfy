/** A table cell that may hold no value: `None` stands for pandas' NaN
    or an empty CSV field. */
module Cells {

  datatype Option<T> = None | Some(value: T)

  /** The values of the non-missing cells, in order (`Series.dropna`). */
  function Present<T(==,!new)>(cells: seq<Option<T>>): (r: seq<T>)
    ensures |r| <= |cells|
    ensures forall x :: x in r <==> Some(x) in cells
    ensures forall x :: multiset(r)[x] == multiset(cells)[Some(x)]
  {
    if cells == [] then []
    else
      var rest := Present(cells[1..]);
      assert cells == [cells[0]] + cells[1..];
      if cells[0].Some? then [cells[0].value] + rest else rest
  }

  /** A column whose every cell is missing has nothing left after
      `dropna`. */
  lemma {:induction false} PresentOfMissing<T(!new)>(cells: seq<Option<T>>)
    requires forall i :: 0 <= i < |cells| ==> cells[i].None?
    ensures Present(cells) == []
  {
    if cells != [] {
      PresentOfMissing(cells[1..]);
    }
  }
}
