/**
 * Shared vocabulary of the vault model: bytes, paths, timestamps, optional
 * values and hexadecimal digits.
 */
module Common {

  /** A byte as Python's `bytes` holds it. */
  newtype byte = x: int | 0 <= x < 256

  /** The contents of a file, a key or a token. */
  type Bytes = seq<byte>

  /** A file-system path; distinct strings name distinct files. */
  type Path = string

  /**
   * An instant as `datetime.now()` gives it. The tables store its
   * `isoformat()` text, whose order agrees with the order of the instants.
   */
  type Timestamp = int

  /** Python's `Optional[T]`: `None` or a value. */
  datatype Option<+T> = None | Some(value: T) {
    function GetOr(default: T): T {
      match this
      case Some(v) => v
      case None => default
    }
  }

  /** A digit accepted by `int(s, 16)`: 0-9, a-f or A-F. */
  predicate IsHexDigit(c: char) {
    ('0' <= c <= '9') || ('a' <= c <= 'f') || ('A' <= c <= 'F')
  }

  /** A digit as `hexdigest()` and `str(ImageHash)` print it: 0-9 or a-f. */
  predicate IsLowerHexDigit(c: char) {
    ('0' <= c <= '9') || ('a' <= c <= 'f')
  }

  predicate IsHex(s: string) {
    forall i :: 0 <= i < |s| ==> IsHexDigit(s[i])
  }

  predicate IsLowerHex(s: string) {
    forall i :: 0 <= i < |s| ==> IsLowerHexDigit(s[i])
  }

  /** The value of one hexadecimal digit, in either case. */
  function HexValue(c: char): (v: int)
    requires IsHexDigit(c)
    ensures 0 <= v < 16
  {
    if '0' <= c <= '9' then c as int - '0' as int
    else if 'a' <= c <= 'f' then c as int - 'a' as int + 10
    else c as int - 'A' as int + 10
  }

  /** Lower-case digits are the canonical spelling: equal values, equal digits. */
  lemma LowerHexValueInjective(c: char, d: char)
    requires IsLowerHexDigit(c) && IsLowerHexDigit(d)
    ensures HexValue(c) == HexValue(d) <==> c == d
  {
  }
}
