/** What several modules share: an optional value, the concatenation of parts, and strlen. */
module Sequences {
  datatype Option<+T> = None | Some(value: T)

  /** The parts in order: an iovec's bytes, or a stream put together from its chunks. */
  function Join<T>(parts: seq<seq<T>>): seq<T> {
    if parts == [] then [] else parts[0] + Join(parts[1..])
  }

  lemma {:induction false} JoinSplit<T>(a: seq<seq<T>>, b: seq<seq<T>>)
    ensures Join(a + b) == Join(a) + Join(b)
  {
    if a == [] {
      assert a + b == b;
    } else {
      assert (a + b)[1..] == a[1..] + b;
      JoinSplit(a[1..], b);
    }
  }

  lemma JoinOneMore<T>(parts: seq<seq<T>>, i: nat)
    requires i < |parts|
    ensures Join(parts[..i + 1]) == Join(parts[..i]) + parts[i]
  {
    assert parts[..i + 1] == parts[..i] + [parts[i]];
    JoinSplit(parts[..i], [parts[i]]);
    assert [parts[i]][1..] == [];
  }

  lemma Assoc<T>(a: seq<T>, b: seq<T>, c: seq<T>)
    ensures a + b + c == a + (b + c)
  {
  }

  lemma SlicesJoin<T>(s: seq<T>, i: nat, j: nat, k: nat)
    requires i <= j <= k <= |s|
    ensures s[i..k] == s[i..j] + s[j..k]
  {
  }

  // ---------- C strings ----------

  predicate NulFree(s: seq<bv8>) {
    forall i :: 0 <= i < |s| ==> s[i] != 0
  }

  /** strlen from at: the distance to the next NUL, or to the end of the memory. */
  function StrLen(data: seq<bv8>, at: nat): (n: nat)
    requires at <= |data|
    ensures at + n <= |data| && NulFree(data[at..at + n])
    ensures at + n < |data| ==> data[at + n] == 0
    decreases |data| - at
  {
    if at == |data| || data[at] == 0 then 0
    else
      var n := StrLen(data, at + 1);
      assert data[at..at + 1 + n] == [data[at]] + data[at + 1..at + 1 + n];
      n + 1
  }

  lemma {:induction false} StrLenIs(data: seq<bv8>, at: nat, n: nat)
    requires at + n < |data| && data[at + n] == 0 && NulFree(data[at..at + n])
    ensures StrLen(data, at) == n
    decreases n
  {
    if n > 0 {
      assert data[at..at + n] == [data[at]] + data[at + 1..at + n];
      StrLenIs(data, at + 1, n - 1);
    }
  }
}
