/** Reed-Solomon error correction (Util/ReedSolomon). Its source is not part
    of this model: the computation is a parameter, and the one fact the
    assembler relies on is stated as a predicate. */
module ReedSolomon {

  import opened Radix

  /** `compute($dataWords, $secLev)`. */
  type Solver = (seq<nat>, nat) -> seq<nat>

  /** Number of error-correction codewords at a security level: 2^(level+1). */
  function EcCount(level: nat): nat {
    Pow(2, level + 1)
  }

  /** An error-correction result of the right size, all codewords in 0..928. */
  predicate Conforms(ec: seq<nat>, level: nat) {
    |ec| == EcCount(level) && forall i :: 0 <= i < |ec| ==> ec[i] <= 928
  }

  /** The solver returns a conforming result at every security level 0..8. */
  ghost predicate WellBehaved(rs: Solver) {
    forall words: seq<nat>, level: nat {:trigger rs(words, level)} ::
      level <= 8 ==> Conforms(rs(words, level), level)
  }
}
