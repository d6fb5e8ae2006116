/** Concatenation of a sequence of sequences. */
module Sequences {
  function Flatten<T>(ss: seq<seq<T>>): seq<T> {
    if ss == [] then [] else ss[0] + Flatten(ss[1..])
  }

  lemma {:induction false} FlattenSnoc<T>(ss: seq<seq<T>>, s: seq<T>)
    ensures Flatten(ss + [s]) == Flatten(ss) + s
    decreases ss
  {
    if ss == [] {
      assert [s][1..] == [];
      assert [] + s == s + Flatten<T>([]);
    } else {
      FlattenSnoc(ss[1..], s);
      assert (ss + [s])[0] == ss[0] && (ss + [s])[1..] == ss[1..] + [s];
      assert ss[0] + (Flatten(ss[1..]) + s) == (ss[0] + Flatten(ss[1..])) + s;
    }
  }
}
