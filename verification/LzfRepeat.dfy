/** Repetitions in the input. */
module LzfRepeat {
  import opened LzfFormat

  /** The same three octets stand at two positions. */
  predicate SameThree(input: seq<Octet>, q: int, p: int) {
    && 0 <= q && 0 <= p && q + 2 < |input| && p + 2 < |input|
    && input[q] == input[p] && input[q + 1] == input[p + 1] && input[q + 2] == input[p + 2]
  }

  /** The n octets at ip repeat those at from. */
  ghost predicate Repeats(input: seq<Octet>, from: int, ip: int, n: int) {
    0 <= from < ip && 0 <= n && ip + n <= |input| && input[ip..ip + n] == input[from..from + n]
  }

  lemma RepeatsOneMore(input: seq<Octet>, from: nat, ip: nat, n: nat)
    requires ip + n < |input| && Repeats(input, from, ip, n) && input[from + n] == input[ip + n]
    ensures Repeats(input, from, ip, n + 1)
  {
    assert input[ip..ip + (n + 1)] == input[ip..ip + n] + [input[ip + n]];
    assert input[from..from + (n + 1)] == input[from..from + n] + [input[from + n]];
  }

  lemma RepeatsThree(input: seq<Octet>, from: nat, ip: nat)
    requires from < ip && ip + 2 < |input|
    requires input[from] == input[ip] && input[from + 1] == input[ip + 1] && input[from + 2] == input[ip + 2]
    ensures Repeats(input, from, ip, 3)
  {
    assert input[ip..ip + 3] == [input[ip], input[ip + 1], input[ip + 2]];
    assert input[from..from + 3] == [input[from], input[from + 1], input[from + 2]];
  }

  lemma RepeatsAt(input: seq<Octet>, from: nat, ip: nat, n: nat, i: nat)
    requires Repeats(input, from, ip, n) && i < n
    ensures input[ip + i] == input[from + i]
  {
    assert input[ip..ip + n][i] == input[from..from + n][i];
  }

  /** Three octets that are the same start every repetition. */
  lemma RepeatsAreSame(input: seq<Octet>, from: nat, ip: nat, n: nat)
    requires Repeats(input, from, ip, n) && n >= 3
    ensures SameThree(input, from, ip)
  {
    RepeatsAt(input, from, ip, n, 0);
    RepeatsAt(input, from, ip, n, 1);
    RepeatsAt(input, from, ip, n, 2);
  }
}
