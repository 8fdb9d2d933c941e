/**
 * Small value helpers shared by every module: an Option type and the
 * handful of PHP string primitives the analyzer relies on.
 */
module Common {

  datatype Option<+T> = None | Some(value: T)

  /** PHP's truthiness of a string: `if ($s)` fails for "" and for "0". */
  predicate Truthy(s: string) {
    s != "" && s != "0"
  }

  /** ASCII lower-casing of one character, as strcasecmp compares. */
  function LowerChar(c: char): (r: char)
    ensures 'A' <= c <= 'Z' ==> 'a' <= r <= 'z'
    ensures !('A' <= c <= 'Z') ==> r == c
  {
    if 'A' <= c <= 'Z' then (c as int + 32) as char else c
  }

  function Lower(s: string): (r: string)
    ensures |r| == |s|
    ensures forall i :: 0 <= i < |s| ==> r[i] == LowerChar(s[i])
  {
    seq(|s|, i requires 0 <= i < |s| => LowerChar(s[i]))
  }

  /** `strcasecmp(a, b) == 0`. */
  predicate EqualsIgnoreCase(a: string, b: string) {
    Lower(a) == Lower(b)
  }

  /** `substr($t, -2) == "[]"`: the type names an array of its element type. */
  predicate EndsWithBrackets(t: string) {
    |t| >= 2 && t[|t| - 2..] == "[]"
  }

  /** `substr($t, 0, -2)` for a type ending in "[]". */
  function StripBrackets(t: string): (r: string)
    requires EndsWithBrackets(t)
    ensures r + "[]" == t
  {
    t[..|t| - 2]
  }

  /** `!empty($t) && $t[0] != "!"`: a type name that may be resolved in the symbol index. */
  predicate Resolvable(t: string) {
    Truthy(t) && t[0] != '!'
  }
}
