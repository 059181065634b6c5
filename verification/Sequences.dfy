/** Sequences of sequences, laid end to end. */
module Sequences {
  function Concat<T>(ss: seq<seq<T>>): seq<T> {
    if ss == [] then [] else ss[0] + Concat(ss[1..])
  }

  lemma ConcatNone<T>(ss: seq<seq<T>>)
    ensures Concat(ss[..0]) == []
  {
  }

  lemma ConcatOne<T>(s: seq<T>)
    ensures Concat([s]) == s
  {
    assert [s][1..] == [];
  }

  lemma ConcatCons<T>(s: seq<T>, ss: seq<seq<T>>)
    ensures Concat([s] + ss) == s + Concat(ss)
  {
    assert ([s] + ss)[1..] == ss;
  }

  lemma {:induction false} ConcatAppend<T>(ss: seq<seq<T>>, s: seq<T>)
    ensures Concat(ss + [s]) == Concat(ss) + s
  {
    if ss == [] {
      assert ss + [s] == [s];
      ConcatOne(s);
    } else {
      ConcatAppend(ss[1..], s);
      assert ss + [s] == [ss[0]] + (ss[1..] + [s]);
      ConcatCons(ss[0], ss[1..] + [s]);
    }
  }
}
