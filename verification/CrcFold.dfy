/** Feeding a message into a register one byte after the other, for any register type. */
module CrcFold {
  function Fold<R>(feed: (R, bv8) -> R, r: R, m: seq<bv8>): R
    decreases |m|
  {
    if m == [] then r else Fold(feed, feed(r, m[0]), m[1..])
  }

  lemma {:induction false} FoldSplit<R>(feed: (R, bv8) -> R, r: R, a: seq<bv8>, b: seq<bv8>)
    ensures Fold(feed, r, a + b) == Fold(feed, Fold(feed, r, a), b)
    decreases |a|
  {
    if a == [] {
      assert a + b == b;
    } else {
      assert (a + b)[1..] == a[1..] + b;
      FoldSplit(feed, feed(r, a[0]), a[1..], b);
    }
  }

  lemma FoldOneMore<R>(feed: (R, bv8) -> R, r: R, m: seq<bv8>, i: nat)
    requires i < |m|
    ensures Fold(feed, r, m[..i + 1]) == feed(Fold(feed, r, m[..i]), m[i])
  {
    assert m[..i + 1] == m[..i] + [m[i]];
    FoldSplit(feed, r, m[..i], [m[i]]);
    assert [m[i]][1..] == [];
  }
}
