/**
 * Well-formed UTF-8, the check `String::from_utf8` applies to the bytes of
 * every decoded string. The byte ranges are those of table 3-7
 * ("Well-Formed UTF-8 Byte Sequences") of the Unicode Standard, which
 * exclude overlong forms, surrogates and values above U+10FFFF.
 */
module Utf8 {
  import opened Bytes

  predicate Continuation(b: Byte) {
    0x80 <= b <= 0xBF
  }

  /**
   * The length of the encoded scalar value that s starts with, or 0 when s
   * does not start with a well-formed one.
   */
  function ScalarLength(s: seq<Byte>): (n: nat)
    ensures n <= 4 && n <= |s|
    ensures s != [] && s[0] < 0x80 ==> n == 1
    ensures n > 0 ==> s != []
  {
    if |s| == 0 then 0
    else if s[0] <= 0x7F then 1
    else if 0xC2 <= s[0] <= 0xDF then
      if |s| >= 2 && Continuation(s[1]) then 2 else 0
    else if s[0] == 0xE0 then
      if |s| >= 3 && 0xA0 <= s[1] <= 0xBF && Continuation(s[2]) then 3 else 0
    else if 0xE1 <= s[0] <= 0xEC || 0xEE <= s[0] <= 0xEF then
      if |s| >= 3 && Continuation(s[1]) && Continuation(s[2]) then 3 else 0
    else if s[0] == 0xED then
      if |s| >= 3 && 0x80 <= s[1] <= 0x9F && Continuation(s[2]) then 3 else 0
    else if s[0] == 0xF0 then
      if |s| >= 4 && 0x90 <= s[1] <= 0xBF && Continuation(s[2]) && Continuation(s[3]) then 4 else 0
    else if 0xF1 <= s[0] <= 0xF3 then
      if |s| >= 4 && Continuation(s[1]) && Continuation(s[2]) && Continuation(s[3]) then 4 else 0
    else if s[0] == 0xF4 then
      if |s| >= 4 && 0x80 <= s[1] <= 0x8F && Continuation(s[2]) && Continuation(s[3]) then 4 else 0
    else 0
  }

  /** s is a sequence of well-formed encoded scalar values. */
  predicate IsWellFormed(s: seq<Byte>)
    decreases |s|
  {
    s == [] || (ScalarLength(s) > 0 && IsWellFormed(s[ScalarLength(s)..]))
  }

  /** The byte content of a Rust `String`: always well-formed UTF-8. */
  type Str = s: seq<Byte> | IsWellFormed(s)

  /** Seven-bit ASCII text is well-formed UTF-8. */
  lemma {:induction false} AsciiIsWellFormed(s: seq<Byte>)
    requires forall i | 0 <= i < |s| :: s[i] < 0x80
    ensures IsWellFormed(s)
  {
    if s != [] {
      AsciiIsWellFormed(s[1..]);
    }
  }

  /** The UTF-8 bytes of an ASCII string literal such as "startup". */
  function FromAscii(text: string): (s: Str)
    requires forall i | 0 <= i < |text| :: text[i] < 128 as char
    ensures |s| == |text|
    ensures forall i | 0 <= i < |text| :: s[i] == text[i] as int
  {
    var bytes := seq(|text|, i requires 0 <= i < |text| => text[i] as int);
    AsciiIsWellFormed(bytes);
    bytes
  }
}
