/** Sequence helpers shared by the string model and the converter stages. */
module Seqs {

  /** Concatenation of a sequence of sequences, in order (Python's repeated
      `list.extend`). Defined on the last element, as the loops that build
      such lists append at the end. */
  function Flatten<T>(ss: seq<seq<T>>): seq<T>
  {
    if ss == [] then [] else Flatten(ss[..|ss| - 1]) + ss[|ss| - 1]
  }

  lemma FlattenSnoc<T>(ss: seq<seq<T>>, s: seq<T>)
    ensures Flatten(ss + [s]) == Flatten(ss) + s
  {
    assert (ss + [s])[..|ss|] == ss;
  }

  /** Growing the last part by one element grows the flattening by it. */
  lemma FlattenGrow<T>(ss: seq<seq<T>>, x: T)
    requires ss != []
    ensures Flatten(ss[..|ss| - 1] + [ss[|ss| - 1] + [x]]) == Flatten(ss) + [x]
  {
    var front := ss[..|ss| - 1];
    var last := ss[|ss| - 1];
    SplitLast(ss);
    FlattenSnoc(front, last);
    FlattenSnoc(front, last + [x]);
  }

  /** Flattening distributes over concatenation. */
  lemma {:induction false} FlattenAppend<T>(a: seq<seq<T>>, b: seq<seq<T>>)
    ensures Flatten(a + b) == Flatten(a) + Flatten(b)
    decreases |b|
  {
    if b == [] {
      assert a + b == a;
    } else {
      var b' := b[..|b| - 1];
      assert a + b == (a + b') + [b[|b| - 1]];
      assert b == b' + [b[|b| - 1]];
      FlattenSnoc(a + b', b[|b| - 1]);
      FlattenAppend(a, b');
      FlattenSnoc(b', b[|b| - 1]);
    }
  }

  lemma FlattenCons<T>(s: seq<T>, ss: seq<seq<T>>)
    ensures Flatten([s] + ss) == s + Flatten(ss)
  {
    FlattenAppend([s], ss);
    assert Flatten([s]) == Flatten([] + [s]);
    FlattenSnoc([], s);
  }

  lemma TakeNext<T>(s: seq<T>, i: nat)
    requires i < |s|
    ensures s[..i + 1] == s[..i] + [s[i]]
  {
  }

  lemma SplitFirst<T>(s: seq<T>)
    requires s != []
    ensures s == [s[0]] + s[1..]
  {
  }

  lemma SplitLast<T>(s: seq<T>)
    requires s != []
    ensures s == s[..|s| - 1] + [s[|s| - 1]]
  {
  }
}
