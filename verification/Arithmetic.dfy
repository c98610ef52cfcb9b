/** The few facts about multiplication and remainders that the rasters and the cyclic runs need. */
module Arithmetic {
  lemma Monotone(a: int, b: int, w: nat)
    requires a <= b
    ensures a * w <= b * w
  {}

  lemma RowUnique(w: nat, row: int, x: nat, q: int, r: nat)
    requires x < w && r < w && q * w + r == row * w + x
    ensures q == row && r == x
  {
    if q < row {
      Monotone(q + 1, row, w);
    } else if q > row {
      Monotone(row + 1, q, w);
    }
  }

  lemma RowColumn(w: nat, row: int, x: nat)
    requires x < w
    ensures (row * w + x) / w == row && (row * w + x) % w == x
  {
    var i := row * w + x;
    RowUnique(w, row, x, i / w, i % w);
  }

  lemma NextTurn(n: nat, m: nat)
    requires m > 0
    ensures (n + 1) % m == if n % m + 1 < m then n % m + 1 else 0
  {
    var q, r := n / m, n % m;
    if r + 1 < m {
      RowColumn(m, q, r + 1);
    } else {
      assert (q + 1) * m == q * m + m;
      RowColumn(m, q + 1, 0);
    }
  }

  // ---- iteration ----

  function Iterate<S>(step: S -> S, s: S, n: nat): S {
    if n == 0 then s else step(Iterate(step, s, n - 1))
  }

  function Wrap(i: nat, m: nat): nat {
    if i + 1 < m then i + 1 else 0
  }

  /** A step that walks a cycle from its first element keeps walking it for ever. */
  lemma {:induction false} WalksCycle<S>(step: S -> S, s: S, cycle: seq<S>, n: nat)
    requires cycle != [] && step(s) == cycle[0]
    requires forall i {:trigger step(cycle[i])} :: 0 <= i < |cycle| ==> step(cycle[i]) == cycle[Wrap(i, |cycle|)]
    ensures Iterate(step, s, n + 1) == cycle[n % |cycle|]
  {
    if n == 0 {
      assert 0 % |cycle| == 0;
    } else {
      WalksCycle(step, s, cycle, n - 1);
      NextTurn(n - 1, |cycle|);
      var i := (n - 1) % |cycle|;
      assert step(cycle[i]) == cycle[Wrap(i, |cycle|)];
    }
  }

  /** A step that reaches a fixed point stays there for ever. */
  lemma {:induction false} StaysAtRest<S>(step: S -> S, s: S, rest: S, m: nat, n: nat)
    requires m <= n && Iterate(step, s, m) == rest && step(rest) == rest
    ensures Iterate(step, s, n) == rest
    decreases n
  {
    if m < n {
      StaysAtRest(step, s, rest, m, n - 1);
    }
  }
}
