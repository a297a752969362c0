/**
 The reference key-validation policy, `MapValidationStrategyImpl`: the map
 calls it before every key-bearing operation, and it rejects negative keys.
 The class has no fields, so its verdict is a function of the key alone.
 */
module KeyValidation {

  /** What `validateKey` does: return normally, or throw `IllegalArgumentException`. */
  datatype Verdict = Accepted | IllegalArgument(message: string)

  function ValidateKey(key: int): (r: Verdict)
  {
    if key < 0 then IllegalArgument("Key cannot be negative!") else Accepted
  }

  /** The policy as the predicate the map is built with. */
  predicate Accepts(key: int) {
    ValidateKey(key).Accepted?
  }

  /** A negative key throws, and every other key returns normally. */
  lemma RejectsExactlyNegative(key: int)
    ensures ValidateKey(key).IllegalArgument? <==> key < 0
    ensures Accepts(key) <==> key >= 0
  {
  }

  /** The boundary is `key < 0`: -1 is rejected, 0 passes. */
  lemma Boundary()
    ensures !Accepts(-1) && Accepts(0)
  {
  }
}
