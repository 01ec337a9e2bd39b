/** JavaScript values the quiz application passes around.

    A JavaScript string is a sequence of UTF-16 code units: `length`,
    `charCodeAt`, a regular expression without the `u` flag and
    `String.fromCharCode` all work on code units, so the model does too
    (a Dafny `char` is a Unicode scalar value and cannot hold a lone
    surrogate, hence the separate type). */
module JsValues {

  /** One UTF-16 code unit. */
  type CodeUnit = x: int | 0 <= x < 0x1_0000

  /** A JavaScript string. */
  type JsStr = seq<CodeUnit>

  /** `null` / `undefined` versus a present value. */
  datatype Option<T> = None | Some(value: T)

  /** The code units of a string literal written in the source. Every literal
      used in this model is ASCII, where a character and its code unit coincide. */
  function Lit(s: string): JsStr
  {
    seq(|s|, i requires 0 <= i < |s| => (s[i] as int) % 0x1_0000)
  }

  /** JavaScript truthiness of an optional string: `null`, `undefined` and the
      empty string are falsy. */
  predicate Truthy(s: Option<JsStr>)
  {
    s.Some? && s.value != []
  }

  /** `String.fromCharCode(n)` for a non-negative number: ToUint16 keeps the
      low 16 bits. */
  function FromCharCode(n: nat): (u: CodeUnit)
    ensures n < 0x1_0000 ==> u == n
  {
    n % 0x1_0000
  }
}
