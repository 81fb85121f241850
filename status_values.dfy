/**
 * The values a status key can hold and their display text. SetStatus is
 * overloaded for bool, the integral types, double, float, string, char,
 * char[] and byte[] (and, in the newer store, their nullable forms); the
 * store boxes every one of them as object, and compares and prints them
 * only through FormatValue, which is `value?.ToString() ?? "null"`.
 */
module StatusValues {
  import opened Text

  /** The integral parameter types of the SetStatus overloads. */
  datatype IntegralType = Byte | Short | Int | UInt | Long | ULong

  /** A boxed status value. */
  datatype Value =
    | Null
    | Bool(b: bool)
    | Integral(kind: IntegralType, n: int)
      /** A double or float, given by the text its ToString() produces. */
    | Floating(text: string)
    | Str(s: string)
    | Char(c: char)
    | CharArray(chars: seq<char>)
    | ByteArray(bytes: seq<bv8>)

  /** FormatValue: ToString() of the boxed value, or "null" for a null reference. */
  function FormatValue(v: Value): string
  {
    match v
    case Null => "null"
    case Bool(b) => if b then "True" else "False"
    case Integral(_, n) => IntToString(n)
    case Floating(t) => t
    case Str(s) => s
    case Char(c) => [c]
    case CharArray(_) => "System.Char[]"
    case ByteArray(_) => "System.Byte[]"
  }

  /** A stored null and the string "null" have the same text, so the store treats them as equal. */
  lemma NullFormatsLikeNullString()
    ensures FormatValue(Null) == FormatValue(Str("null")) == "null"
  {
  }

  /** Integral values of any two types format alike exactly when they are numerically equal. */
  lemma FormatIntegral(k1: IntegralType, n1: int, k2: IntegralType, n2: int)
    ensures FormatValue(Integral(k1, n1)) == FormatValue(Integral(k2, n2)) <==> n1 == n2
  {
    IntToStringInjective(n1, n2);
  }

  /** Any two byte arrays (and any two char arrays) format alike, whatever they hold. */
  lemma FormatArrays(a: seq<bv8>, b: seq<bv8>, c: seq<char>, d: seq<char>)
    ensures FormatValue(ByteArray(a)) == FormatValue(ByteArray(b))
    ensures FormatValue(CharArray(c)) == FormatValue(CharArray(d))
  {
  }
}
