/** The few pieces of the Java platform the service code leans on:
    bytes, exceptions, string rendering of null and `String.equalsIgnoreCase`. */
module JavaLang {
  import opened Wrappers

  /** An unsigned octet; Java's signed `byte` carries the same 256 values. */
  newtype byte = x: int | 0 <= x < 256

  /** The exception classes the service code throws or catches by name. */
  datatype ExceptionKind =
    | IOException
    | RuntimeException
    | AIException
    | IllegalArgumentException
    | OtherException

  /** A thrown exception: its class and its (possibly null) message. */
  datatype JavaException = JavaException(kind: ExceptionKind, message: Option<string>)

  /** How string concatenation and `%s` render a possibly-null string. */
  function Render(s: Option<string>): (r: string)
    ensures s.Some? ==> r == s.value
    ensures s.None? ==> r == "null"
  {
    match s
    case None => "null"
    case Some(t) => t
  }

  /** `new AIException(message)`. */
  function AIError(message: string): JavaException {
    JavaException(AIException, Some(message))
  }

  /** `String.getBytes()` for the ASCII literals the controller sends back. */
  function AsciiBytes(s: string): (b: seq<byte>)
    ensures |b| == |s|
  {
    seq(|s|, k requires 0 <= k < |s| => (s[k] as int % 256) as byte)
  }

  /** `Character.toUpperCase` on ASCII letters, and on the two non-ASCII
      characters whose upper case is an ASCII letter (dotless i, long s). */
  function ToUpper(c: char): char {
    if 'a' <= c <= 'z' then (c as int - 32) as char
    else if c == '\U{0131}' then 'I'
    else if c == '\U{017F}' then 'S'
    else c
  }

  /** `Character.toLowerCase` on ASCII letters, and on the two non-ASCII
      characters whose lower case is an ASCII letter (dotted I, Kelvin sign). */
  function ToLower(c: char): char {
    if 'A' <= c <= 'Z' then (c as int + 32) as char
    else if c == '\U{0130}' then 'i'
    else if c == '\U{212A}' then 'k'
    else c
  }

  /** The per-character test of `String.regionMatches(true, ...)`. */
  predicate CharsEqualIgnoreCase(a: char, b: char) {
    a == b || ToUpper(a) == ToUpper(b) || ToLower(ToUpper(a)) == ToLower(ToUpper(b))
  }

  /** `a.equalsIgnoreCase(b)` for non-null `b`: same length and every
      position equal ignoring case. Equal strings are always equal ignoring
      case; strings of different lengths never are. */
  function EqualsIgnoreCase(a: string, b: string): (eq: bool)
    ensures a == b ==> eq
    ensures eq ==> |a| == |b|
  {
    |a| == |b| && forall k :: 0 <= k < |a| ==> CharsEqualIgnoreCase(a[k], b[k])
  }

  /** An ASCII letter other than i, k and s equals ignoring case only its own
      lower- and upper-case forms. */
  lemma PlainLetterVariants(l: char, c: char)
    requires 'a' <= l <= 'z' && l != 'i' && l != 'k' && l != 's'
    ensures CharsEqualIgnoreCase(l, c) <==> (c == l || c == ToUpper(l))
  {
  }

  /** i also matches the dotted capital I and the dotless small i. */
  lemma LetterIVariants(c: char)
    ensures CharsEqualIgnoreCase('i', c) <==> c in "iI\U{0130}\U{0131}"
  {
  }

  /** s also matches the long s. */
  lemma LetterSVariants(c: char)
    ensures CharsEqualIgnoreCase('s', c) <==> c in "sS\U{017F}"
  {
  }

  /** The comparison does not depend on which side is the receiver. */
  lemma EqualsIgnoreCaseSymmetric(a: string, b: string)
    ensures EqualsIgnoreCase(a, b) == EqualsIgnoreCase(b, a)
  {
  }
}
