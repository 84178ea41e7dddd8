/** The answer of a rate-limit check, as a value and as the shared object that carries it. */
module LimitResults {
  datatype LimitFields = LimitFields(
    limited: bool, currentCount: int, limit: int, remaining: int, resetAfter: int, window: string)

  const ZERO_FIELDS: LimitFields := LimitFields(false, 0, 0, 0, 0, "")

  class LimitResult {
    var fields: LimitFields

    constructor (fields: LimitFields)
      ensures this.fields == fields
    {
      this.fields := fields;
    }
  }
}
