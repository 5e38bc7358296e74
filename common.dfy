/** Values shared by the formatter, the parser and their options: the
    failures the library throws, and the JavaScript values (null, undefined,
    strings) that reach string concatenation. */
module Common {

  datatype Option<+T> = None | Some(value: T)

  /** Why a call throws. Each constructor names one `throw` of the library,
      or one TypeError the JavaScript runtime raises inside it. */
  datatype Failure =
    | NullLength                     // `.length` read on the null that a failed `String.match` returns
    | UndefinedMethodCall            // `match` called on a mask parameter left `undefined`
    | MaskNotCompiled                // `apply` on a mask whose `compile` never ran
    | MaskTooShort                   // the digit string is longer than the mask
    | GroupMaskWithoutPlaceholder    // group mask with no `0` or `#`
    | DecimalMaskWithoutPlaceholder  // decimal mask with no `0` or `#`
    | MultipleDecimalPoints(count: nat)
    | DisallowedChars(count: nat)
    | UnknownRoundingMode

  datatype Result<+T> = Success(value: T) | Failure(error: Failure)

  datatype Outcome = Pass | Fail(error: Failure)

  /** A JavaScript value that is concatenated to a string: `null`,
      `undefined`, or a string. */
  datatype JsText = Null | Undefined | Str(s: string)

  /** What `v + s` puts in front of `s` (JavaScript's string conversion). */
  function ToJsString(v: JsText): string
  {
    match v
    case Null => "null"
    case Undefined => "undefined"
    case Str(s) => s
  }

  /** The number of occurrences of `c` in `s`. */
  function Count(s: string, c: char): (n: nat)
    ensures n <= |s|
    ensures n == 0 <==> c !in s
  {
    if s == [] then 0 else (if s[0] == c then 1 else 0) + Count(s[1..], c)
  }

  predicate IsDigit(c: char) { '0' <= c <= '9' }

  predicate AllDigits(s: string) { forall i :: 0 <= i < |s| ==> IsDigit(s[i]) }
}
