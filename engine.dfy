/** The challenge engine of src/lib.rs: generating a challenge from sixteen
    start bytes, the sequential solver, the cheap inverse-direction verifier,
    and their cooperative (async) twins, which run the same loop. */
module Engine {
  import opened Wrappers
  import opened Bytes
  import opened Squaring
  import opened Params
  import opened Codec

  /** The text the solver returns for challenge `c`: the solution text of
      the value after `difficulty` solve steps. */
  function Solution(c: KctfPow): string {
    SolutionText(SolveChain(c.difficulty, c.value, Exponent, Modulus))
  }

  /** What `verify` returns for challenge `c` and a solution text: the
      decoder's error, or whether `difficulty` verify steps from the decoded
      candidate reach the start value or its negation. */
  function VerifyOutcome(c: KctfPow, solution: string): Result<bool, KctfError> {
    match ParseSolution(solution)
    case Err(e) => Err(e)
    case Ok(candidate) => Ok(Accepts(Modulus, c.value, VerifyChain(c.difficulty, candidate, Modulus)))
  }

  /** `KctfPow::gen_challenge`, with the sixteen random bytes as a parameter:
      the difficulty as given (zero included) and the bytes' big-endian value,
      which is always below the modulus. */
  function GenChallenge(difficulty: U32, bytes: seq<Byte>): (c: KctfPow)
    requires |bytes| == 16
    ensures c.difficulty == difficulty && c.value == FromDigits(bytes)
    ensures c.value < Modulus
  {
    SixteenBytesBelowModulus(bytes);
    KctfPow(difficulty, FromDigits(bytes))
  }

  /** `KctfPow::solve`: the owned copy's value goes through `difficulty`
      rounds of `v := v^exponent mod modulus; v ^= 1`; at difficulty 0 the
      text encodes the start value itself. */
  method Solve(c: KctfPow) returns (solution: string)
    ensures solution == Solution(c)
    ensures c.difficulty == 0 ==> solution == SolutionText(c.value)
  {
    var value := c.value;
    for i := 0 to c.difficulty
      invariant value == SolveChain(i, c.value, Exponent, Modulus)
    {
      value := PowMod(value, Exponent, Modulus);
      value := XorOne(value);
    }
    solution := SolutionText(value);
  }

  /** `KctfPow::verify`: decode the candidate, run `difficulty` rounds of
      `c ^= 1; c := c^2 mod modulus`, and accept the start value or its
      negation. It fails only where the decoder fails. */
  method Verify(c: KctfPow, solution: string) returns (r: Result<bool, KctfError>)
    ensures r == VerifyOutcome(c, solution)
    ensures r.Err? <==> ParseSolution(solution).Err?
  {
    var decoded := DecodeSolution(solution);
    if decoded.Err? {
      return Err(decoded.error);
    }
    var accepted := CheckCandidate(c, decoded.value);
    r := Ok(accepted);
  }

  /** The loop of `verify` over a decoded candidate. */
  method CheckCandidate(c: KctfPow, candidate: nat) returns (accepted: bool)
    ensures accepted == Accepts(Modulus, c.value, VerifyChain(c.difficulty, candidate, Modulus))
  {
    var decodedSolution := candidate;
    for i := 0 to c.difficulty
      invariant VerifyChain(c.difficulty - i, decodedSolution, Modulus)
        == VerifyChain(c.difficulty, candidate, Modulus)
    {
      decodedSolution := XorOne(decodedSolution);
      decodedSolution := PowMod(decodedSolution, 2, Modulus);
    }
    accepted := c.value == decodedSolution || Modulus - c.value == decodedSolution;
  }

  /** `KctfPow::async_solve`: each round is its own awaited step; the rounds
      and the result are those of Solve. */
  method AsyncSolve(c: KctfPow) returns (solution: string)
    ensures solution == Solution(c)
  {
    var value := c.value;
    for i := 0 to c.difficulty
      invariant value == SolveChain(i, c.value, Exponent, Modulus)
    {
      value := SolveRound(value);
    }
    solution := SolutionText(value);
  }

  /** The body of one async solve round: one step of the solve chain. */
  method SolveRound(value: nat) returns (next: nat)
    ensures next == SolveStep(value, Exponent, Modulus)
  {
    next := PowMod(value, Exponent, Modulus);
    next := XorOne(next);
  }

  /** `KctfPow::async_verify`: each round is its own awaited step; the
      outcome is that of Verify. */
  method AsyncVerify(c: KctfPow, solution: string) returns (r: Result<bool, KctfError>)
    ensures r == VerifyOutcome(c, solution)
  {
    var decoded := DecodeSolution(solution);
    if decoded.Err? {
      return Err(decoded.error);
    }
    var accepted := AsyncCheckCandidate(c, decoded.value);
    r := Ok(accepted);
  }

  /** The loop of `async_verify` over a decoded candidate. */
  method AsyncCheckCandidate(c: KctfPow, candidate: nat) returns (accepted: bool)
    ensures accepted == Accepts(Modulus, c.value, VerifyChain(c.difficulty, candidate, Modulus))
  {
    var decodedSolution := candidate;
    for i := 0 to c.difficulty
      invariant VerifyChain(c.difficulty - i, decodedSolution, Modulus)
        == VerifyChain(c.difficulty, candidate, Modulus)
    {
      decodedSolution := VerifyRound(decodedSolution);
    }
    accepted := c.value == decodedSolution || Modulus - c.value == decodedSolution;
  }

  /** The body of one async verify round: one step of the verify chain. */
  method VerifyRound(candidate: nat) returns (next: nat)
    ensures next < Modulus
    ensures next == VerifyStep(candidate, Modulus)
  {
    next := XorOne(candidate);
    next := PowMod(next, 2, Modulus);
  }

  /** Self-consistency: for every challenge whose value is below the
      modulus, verifying the solver's text gives Ok(true), provided the
      exponent has the square-root property modulo the modulus. */
  lemma VerifyAcceptsSolution(c: KctfPow)
    requires c.value < Modulus
    requires SquareRootProperty(Modulus, Exponent)
    ensures VerifyOutcome(c, Solution(c)) == Ok(true)
  {
    var final := SolveChain(c.difficulty, c.value, Exponent, Modulus);
    SolutionRoundTrip(final);
    SolveThenVerify(c.difficulty, c.value, Exponent, Modulus);
  }

  /** Every generated challenge verifies against its own solution, for every
      difficulty and every sixteen start bytes. */
  lemma GeneratedChallengeVerifies(difficulty: U32, bytes: seq<Byte>)
    requires |bytes| == 16
    requires SquareRootProperty(Modulus, Exponent)
    ensures VerifyOutcome(GenChallenge(difficulty, bytes), Solution(GenChallenge(difficulty, bytes))) == Ok(true)
  {
    VerifyAcceptsSolution(GenChallenge(difficulty, bytes));
  }

  /** The verifier accepts both square roots: a candidate whose verify chain
      ends on the negated start value is accepted like one ending on it. */
  lemma VerifyAcceptsNegation(c: KctfPow, solution: string)
    requires ParseSolution(solution).Ok?
    requires VerifyChain(c.difficulty, ParseSolution(solution).value, Modulus) == Modulus - c.value
    ensures VerifyOutcome(c, solution) == Ok(true)
  {
  }
}
