/** The arithmetic of the kCTF time-lock chain over an odd modulus `p`:
    the solve step `v := (v^e mod p) XOR 1`, the verify step
    `c := (c XOR 1)^2 mod p`, and the proof that running the verify chain
    over the result of the solve chain lands on the start value up to sign,
    given the square-root property of `e` as an explicit hypothesis. */
module Squaring {
  import Bytes

  /** `x ^= 1` on a non-negative integer: flips the lowest bit. */
  function XorOne(x: nat): (r: nat)
    ensures r / 2 == x / 2 && r % 2 == 1 - x % 2
  {
    if x % 2 == 0 then x + 1 else x - 1
  }

  lemma XorOneInvolution(x: nat)
    ensures XorOne(XorOne(x)) == x
  {
  }

  /** For odd `p`, flipping the lowest bit commutes with negation below `p`. */
  lemma XorOneComplement(p: nat, x: nat)
    requires p % 2 == 1 && x <= p
    ensures XorOne(p - x) == p - XorOne(x)
  {
  }

  function Pow(x: nat, e: nat): nat
    decreases e
  {
    if e == 0 then 1 else x * Pow(x, e - 1)
  }

  /** `x.pow_mod(e, m)` for a non-negative base: x^e mod m. */
  function PowMod(x: nat, e: nat, m: nat): (r: nat)
    requires m > 0
    ensures r < m
  {
    Pow(x, e) % m
  }

  /** One iteration of the solver's loop. */
  function SolveStep(v: nat, e: nat, p: nat): nat
    requires p > 0
  {
    XorOne(PowMod(v, e, p))
  }

  /** One iteration of the verifier's loop. */
  function VerifyStep(c: nat, p: nat): (r: nat)
    requires p > 0
    ensures r < p
  {
    PowMod(XorOne(c), 2, p)
  }

  /** The solver's value after `n` iterations starting from `v`. */
  function SolveChain(n: nat, v: nat, e: nat, p: nat): nat
    requires p > 0
    decreases n
  {
    if n == 0 then v else SolveStep(SolveChain(n - 1, v, e, p), e, p)
  }

  /** The verifier's candidate after `n` iterations starting from `c`. */
  function VerifyChain(n: nat, c: nat, p: nat): nat
    requires p > 0
    decreases n
  {
    if n == 0 then c else VerifyChain(n - 1, VerifyStep(c, p), p)
  }

  /** The square-root property of `e` modulo `p`: squaring `x^e mod p` gives
      `x` back up to sign. For the prime 2^1279 - 1 and e = 2^1279 / 4 this is
      Euler's criterion, which is not proved here; it is a hypothesis of
      every lemma that needs it. */
  ghost predicate SquareRootProperty(p: nat, e: nat)
    requires p > 0
  {
    forall x: nat :: x <= p ==>
      PowMod(PowMod(x, e, p), 2, p) == x % p || PowMod(PowMod(x, e, p), 2, p) == (p - x) % p
  }

  /** `c` is congruent to `v` or to `-v` modulo `p`. */
  predicate SameUpToSign(c: int, v: int, p: nat)
    requires p > 0
  {
    (c - v) % p == 0 || (c + v) % p == 0
  }

  /** A multiple of `p` in [-p, 2p] is -p, 0, p or 2p. */
  lemma SmallMultiple(x: int, p: int)
    requires p > 0 && -p <= x <= 2 * p && x % p == 0
    ensures x == -p || x == 0 || x == p || x == 2 * p
  {
    if x < 0 {
      DivModUnique(x, p, -1, x + p);
    } else if x < p {
      DivModUnique(x, p, 0, x);
    } else if x < 2 * p {
      DivModUnique(x, p, 1, x - p);
    }
  }

  /** Below `p`, flipping the lowest bit keeps agreement up to sign. */
  lemma XorOneKeepsSign(c: nat, v: nat, p: nat)
    requires p % 2 == 1 && c <= p && v <= p && SameUpToSign(c, v, p)
    ensures SameUpToSign(XorOne(c), XorOne(v), p)
  {
    if (c - v) % p == 0 {
      SmallMultiple(c - v, p);
      XorOneEqualOrEnds(c, v, p);
    } else {
      SmallMultiple(c + v, p);
      XorOneNegated(c, v, p);
    }
  }

  /** Equal numbers, or the two ends 0 and `p`, stay equal or opposite. */
  lemma XorOneEqualOrEnds(c: nat, v: nat, p: nat)
    requires p % 2 == 1 && (c == v || (c == p && v == 0) || (c == 0 && v == p))
    ensures SameUpToSign(XorOne(c), XorOne(v), p)
  {
    if c == v {
      assert XorOne(c) - XorOne(v) == 0;
    } else {
      assert XorOne(c) + XorOne(v) == p;
      DivModUnique(p, p, 1, 0);
    }
  }

  /** Numbers summing to 0, `p` or `2p` below `p` stay opposite. */
  lemma XorOneNegated(c: nat, v: nat, p: nat)
    requires p % 2 == 1 && c <= p && v <= p
    requires c + v == 0 || c + v == p || c + v == 2 * p
    ensures SameUpToSign(XorOne(c), XorOne(v), p)
  {
    if c + v == p {
      XorOneComplement(p, v);
      assert XorOne(c) + XorOne(v) == p;
      DivModUnique(p, p, 1, 0);
    } else {
      assert c == v;
      assert XorOne(c) - XorOne(v) == 0;
    }
  }

  /** Numbers that differ by a multiple of `p` leave the same remainder. */
  lemma CongruentRemainders(a: int, b: int, p: nat)
    requires p > 0 && (a - b) % p == 0
    ensures a % p == b % p
  {
    var k := (a - b) / p;
    assert a - b == p * k;
    var qb, rb := b / p, b % p;
    assert a == p * (qb + k) + rb by {
      assert p * (qb + k) == p * qb + p * k;
    }
    DivModUnique(a, p, qb + k, rb);
  }

  lemma DivModUnique(x: int, p: int, q: int, r: int)
    requires p > 0 && 0 <= r < p && x == p * q + r
    ensures x % p == r
  {
    var q', r' := x / p, x % p;
    assert p * q + r == p * q' + r';
    if q < q' {
      Bytes.MulLeft(p, q + 1, q');
      assert false;
    } else if q > q' {
      Bytes.MulLeft(p, q' + 1, q);
      assert false;
    }
  }

  /** A multiple of `p` times anything is a multiple of `p`. */
  lemma MultipleTimes(x: int, y: int, p: nat)
    requires p > 0 && x % p == 0
    ensures (x * y) % p == 0
  {
    var k := x / p;
    assert x == p * k;
    assert x * y == p * (k * y);
    DivModUnique(x * y, p, k * y, 0);
  }

  /** Agreement up to sign gives equal squares modulo `p`. */
  lemma SquaresAgree(a: int, b: int, p: nat)
    requires p > 0 && SameUpToSign(a, b, p)
    ensures (a * a) % p == (b * b) % p
  {
    assert a * a - b * b == (a - b) * (a + b);
    if (a - b) % p == 0 {
      MultipleTimes(a - b, a + b, p);
    } else {
      MultipleTimes(a + b, a - b, p);
      assert (a + b) * (a - b) == (a - b) * (a + b);
    }
    CongruentRemainders(a * a, b * b, p);
  }

  /** A remainder agrees with its number; the remainder of `p - x` agrees
      with `x` up to sign. */
  lemma RemainderSign(x: nat, p: nat)
    requires p > 0
    ensures SameUpToSign(x % p, x, p)
    ensures SameUpToSign((p - x) % p, x, p)
  {
    var q := x / p;
    assert x % p - x == p * -q;
    DivModUnique(x % p - x, p, -q, 0);
    var m := (p - x) % p;
    var q2 := (p - x) / p;
    assert p - x == p * q2 + m;
    assert m + x == p * (1 - q2);
    DivModUnique(m + x, p, 1 - q2, 0);
  }

  /** One verify step undoes one solve step up to sign. */
  lemma {:induction false} StepBack(c: nat, v: nat, e: nat, p: nat)
    requires p % 2 == 1 && SquareRootProperty(p, e)
    requires c <= p && v <= p && SameUpToSign(c, SolveStep(v, e, p), p)
    ensures SameUpToSign(VerifyStep(c, p), v, p)
  {
    var r := PowMod(v, e, p);
    XorOneKeepsSign(c, XorOne(r), p);
    XorOneInvolution(r);
    var a := XorOne(c);
    SquaresAgree(a, r, p);
    assert Pow(a, 2) == a * a && Pow(r, 2) == r * r;
    assert VerifyStep(c, p) == PowMod(r, 2, p);
    RemainderSign(v, p);
  }

  /** The solver's values stay within [0, p] once the chain has started. */
  lemma {:induction false} SolveChainBound(n: nat, v: nat, e: nat, p: nat)
    requires p % 2 == 1 && v <= p
    ensures SolveChain(n, v, e, p) <= p
    decreases n
  {
    if n > 0 {
      SolveChainBound(n - 1, v, e, p);
    }
  }

  /** Running `n` verify steps from anything that agrees up to sign with the
      solver's value after `n` steps arrives, up to sign, at the start value. */
  lemma {:induction false} ChainBack(n: nat, c: nat, v: nat, e: nat, p: nat)
    requires p % 2 == 1 && SquareRootProperty(p, e)
    requires c <= p && v <= p && SameUpToSign(c, SolveChain(n, v, e, p), p)
    ensures SameUpToSign(VerifyChain(n, c, p), v, p)
    decreases n
  {
    if n > 0 {
      var prev := SolveChain(n - 1, v, e, p);
      SolveChainBound(n - 1, v, e, p);
      StepBack(c, prev, e, p);
      ChainBack(n - 1, VerifyStep(c, p), v, e, p);
    }
  }

  /** What the verifier accepts: the start value or its negation. */
  predicate Accepts(p: nat, start: nat, candidate: nat) {
    candidate == start || candidate == p - start
  }

  /** After at least one step the verifier's candidate is below `p`. */
  lemma {:induction false} VerifyChainBelow(n: nat, c: nat, p: nat)
    requires p > 0 && n > 0
    ensures VerifyChain(n, c, p) < p
    decreases n
  {
    if n > 1 {
      VerifyChainBelow(n - 1, VerifyStep(c, p), p);
    }
  }

  /** The verify chain undoes the solve chain: for every start value below
      the odd modulus and every number of iterations, the verifier accepts
      the solver's result. */
  lemma SolveThenVerify(n: nat, v: nat, e: nat, p: nat)
    requires p % 2 == 1 && SquareRootProperty(p, e) && v < p
    ensures Accepts(p, v, VerifyChain(n, SolveChain(n, v, e, p), p))
  {
    var s := SolveChain(n, v, e, p);
    SolveChainBound(n, v, e, p);
    assert (s - s) % p == 0;
    ChainBack(n, s, v, e, p);
    var r := VerifyChain(n, s, p);
    if n > 0 {
      VerifyChainBelow(n, s, p);
      if (r - v) % p == 0 {
        SmallMultiple(r - v, p);
      } else {
        SmallMultiple(r + v, p);
      }
    }
  }
}
