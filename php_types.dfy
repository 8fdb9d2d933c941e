/**
 * The analyzer's type vocabulary. Types are strings: a class name, an
 * element type followed by "[]" for arrays, or a sentinel. Sentinels
 * start with '!' so that no class name can collide with them; their
 * exact spelling belongs to Scope, which is not part of this model, so
 * the model fixes one distinct spelling for each.
 */
module PhpTypes {

  const UNDEFINED: string := "!undefined"
  const MIXED_TYPE: string := "!mixed"
  const NULL_TYPE: string := "!null"
  const SCALAR_TYPE: string := "!scalar"
  const BOOL_TYPE: string := "!bool"
  const INT_TYPE: string := "!int"
  const ARRAY_TYPE: string := "!array"

  /** The tri-state nullability of an inferred value. */
  datatype Nullability = Impossible | Possible | Unknown

  /** An inferred (type, nullability) pair. */
  datatype Inferred = Inferred(typ: string, nullability: Nullability)

  predicate IsSentinel(t: string) {
    |t| > 0 && t[0] == '!'
  }
}
