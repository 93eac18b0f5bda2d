/** The inputs that cost an encoder the most: nothing repeats until the last three octets, which
    repeat their predecessors. They do not depend on any hash function. */
module LzfWorstCase {
  import opened LzfFormat
  import opened LzfRepeat

  /** No three octets at from..upTo repeat earlier ones within the window. */
  ghost predicate NoRepeat(input: seq<Octet>, from: int, upTo: int) {
    forall q, p :: from <= q < p <= upTo && p - q <= MAX_OFF ==> !SameThree(input, q, p)
  }

  ghost predicate Costly(input: seq<Octet>, from: int) {
    && |input| >= 4 && NoRepeat(input, from, |input| - 4)
    && input[|input| - 3] == input[|input| - 2] == input[|input| - 1] == input[|input| - 4]
  }

  /** One octet of a sequence that repeats only after 16384 octets: low digits below 128 in even
      places, high digits from 128 in odd ones. */
  function Digit(i: nat): Octet {
    if i % 2 == 0 then i / 2 % 128 else 128 + i / 2 / 128 % 64
  }

  /** A costly input of n octets. */
  function Costliest(n: nat): (s: seq<Octet>)
    ensures |s| == n
  {
    seq(n, i requires 0 <= i < n => if i >= n - 4 then 255 else Digit(i))
  }

  lemma DigitsDecide(a: nat, b: nat)
    requires a < b <= a + 4096
    ensures a % 128 == b % 128 ==> a / 128 % 64 != b / 128 % 64
  {
  }

  lemma DigitsDoNotRepeat(q: nat, p: nat)
    requires q < p <= q + MAX_OFF
    ensures !(Digit(q) == Digit(p) && Digit(q + 1) == Digit(p + 1) && Digit(q + 2) == Digit(p + 2))
  {
    if q % 2 == p % 2 {
      if q % 2 == 0 {
        DigitsDecide(q / 2, p / 2);
      } else {
        DigitsDecide((q + 1) / 2, (p + 1) / 2);
        assert (q + 2) / 2 == (q + 1) / 2 && (p + 2) / 2 == (p + 1) / 2;
      }
    }
  }

  lemma CostliestIsCostly(n: nat)
    requires n >= 4
    ensures Costly(Costliest(n), 0)
  {
    var s := Costliest(n);
    forall q, p | 0 <= q < p <= n - 4 && p - q <= MAX_OFF
      ensures !SameThree(s, q, p)
    {
      DigitsDoNotRepeat(q, p);
    }
  }
}
