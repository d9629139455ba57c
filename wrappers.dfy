/** Option and sequence helpers shared by the other modules. */
module Wrappers {

  datatype Option<+T> = None | Some(value: T)

  /** The empty sequence for None, a singleton for Some. */
  function OptionToSeq<T>(o: Option<T>): (r: seq<T>)
    ensures o.None? ==> r == []
    ensures o.Some? ==> r == [o.value]
  {
    match o
    case None => []
    case Some(v) => [v]
  }

  /** Python's ''.join over lists: the concatenation of the parts, in order. */
  function Flatten<T>(parts: seq<seq<T>>): (r: seq<T>)
    decreases |parts|
  {
    if parts == [] then [] else Flatten(parts[..|parts| - 1]) + parts[|parts| - 1]
  }

  lemma FlattenAppend<T>(parts: seq<seq<T>>, p: seq<T>)
    ensures Flatten(parts + [p]) == Flatten(parts) + p
  {
    assert (parts + [p])[..|parts|] == parts;
  }

  lemma {:induction false} FlattenConcat<T>(xs: seq<seq<T>>, ys: seq<seq<T>>)
    ensures Flatten(xs + ys) == Flatten(xs) + Flatten(ys)
    decreases |ys|
  {
    if ys == [] {
      assert xs + ys == xs;
    } else {
      var init := ys[..|ys| - 1];
      var lst := ys[|ys| - 1];
      assert xs + ys == (xs + init) + [lst];
      FlattenAppend(xs + init, lst);
      FlattenConcat(xs, init);
    }
  }

  lemma FlattenPrepend<T>(p: seq<T>, parts: seq<seq<T>>)
    ensures Flatten([p] + parts) == p + Flatten(parts)
    decreases |parts|
  {
    if parts == [] {
      assert [p] + parts == [p];
      assert Flatten([p]) == Flatten([p][..0]) + p;
    } else {
      var init := parts[..|parts| - 1];
      var lst := parts[|parts| - 1];
      assert parts == init + [lst];
      assert [p] + parts == ([p] + init) + [lst];
      FlattenAppend([p] + init, lst);
      FlattenPrepend(p, init);
      FlattenAppend(init, lst);
    }
  }
}
