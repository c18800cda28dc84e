/** The checks of integers against a schema, in the 64-bit words of the code. */
module SchemaIntegers {
  import opened JsonValues
  import opened SchemaModel
  import opened SchemaStream
  import N = JsonNumbers

  newtype int64 = x: int | -INT64_LIMIT <= x < INT64_LIMIT

  predicate IntegerAllowed(s: Schema) {
    IntegerType in s.types || NumberType in s.types
  }

  /** Whether the check of a signed integer negates one whose negation 64 bits do not hold, which the language leaves
      undefined: it comes to the least one with a divisor to check it against. */
  predicate NegationOverflows(s: Schema, i: int) {
    && i == -INT64_LIMIT && IntegerAllowed(s)
    && (s.minimum.Some? ==> s.minimum.value == -INT64_LIMIT && !s.exclusiveMinimum)
    && (s.maximum.Some? ==> s.maximum.value > -INT64_LIMIT || !s.exclusiveMaximum)
    && s.multipleOf.Some? && s.multipleOf.value > 0
  }

  /** `CheckInt`; where the negation is not defined the method says so and stops. */
  method CheckSigned(s: Schema, i: int64) returns (defined: bool, ok: bool)
    ensures defined <==> !NegationOverflows(s, i as int)
    ensures defined ==> (ok <==> CheckInt(s, i as int))
  {
    defined, ok := true, false;
    if !IntegerAllowed(s) { return; }
    if s.minimum.Some? {
      if s.minimum.value < INT64_LIMIT {
        var least := s.minimum.value as int64;
        if if s.exclusiveMinimum then i <= least else i < least { return; }
      } else {
        return;
      }
    }
    if s.maximum.Some? {
      if s.maximum.value < INT64_LIMIT {
        var greatest := s.maximum.value as int64;
        if if s.exclusiveMaximum then i >= greatest else i > greatest { return; }
      }
    }
    if s.multipleOf.Some? && s.multipleOf.value > 0 {
      if i == -0x8000_0000_0000_0000 { return false, false; }
      var magnitude := (if i >= 0 then i else -i) as N.uint64;
      if magnitude as nat % s.multipleOf.value != 0 { return; }
    }
    ok := true;
  }

  /** `CheckUint`, which negates nothing. */
  method CheckUnsigned(s: Schema, u: N.uint64) returns (ok: bool)
    ensures ok <==> CheckUint(s, u as nat)
  {
    ok := false;
    if !IntegerAllowed(s) { return; }
    if s.minimum.Some? && s.minimum.value >= 0 {
      var least := s.minimum.value as N.uint64;
      if if s.exclusiveMinimum then u <= least else u < least { return; }
    }
    if s.maximum.Some? {
      if s.maximum.value >= 0 {
        var greatest := s.maximum.value as N.uint64;
        if if s.exclusiveMaximum then u >= greatest else u > greatest { return; }
      } else {
        return;
      }
    }
    if s.multipleOf.Some? && s.multipleOf.value > 0 {
      if u as nat % s.multipleOf.value != 0 { return; }
    }
    ok := true;
  }

  /** The least integer under "multipleOf": 2. */
  lemma LeastIntegerOverflows()
    ensures NegationOverflows(TYPELESS.(multipleOf := Some(2)), -INT64_LIMIT)
  {
    assert IntegerType in ALL_TYPES;
  }
}
