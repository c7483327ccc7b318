/** Well-formed UTF-8 (section 4 of RFC 3629), which is what a Rust string accepts. */
module Utf8 {
  import opened Bytes

  predicate Tail(b: byte) {
    0x80 <= b <= 0xBF
  }

  /** The length of the character at the front, or zero if there is none. */
  function CharLen(s: bytes): (n: nat)
    ensures n <= |s|
  {
    if |s| >= 1 && s[0] < 0x80 then 1
    else if |s| >= 2 && 0xC2 <= s[0] <= 0xDF && Tail(s[1]) then 2
    else if |s| >= 3 && Tail(s[1]) && Tail(s[2]) && (
              || (s[0] == 0xE0 && s[1] >= 0xA0) || 0xE1 <= s[0] <= 0xEC
              || (s[0] == 0xED && s[1] <= 0x9F) || 0xEE <= s[0] <= 0xEF) then 3
    else if |s| >= 4 && Tail(s[1]) && Tail(s[2]) && Tail(s[3]) && (
              || (s[0] == 0xF0 && s[1] >= 0x90) || 0xF1 <= s[0] <= 0xF3
              || (s[0] == 0xF4 && s[1] <= 0x8F)) then 4
    else 0
  }

  /** A Unicode scalar value: up to 0x10FFFF, but no surrogate. */
  predicate Scalar(c: nat) {
    c <= 0x10FFFF && !(0xD800 <= c <= 0xDFFF)
  }

  /** The one way to write a scalar value (section 3 of RFC 3629). */
  function CharOf(c: nat): (s: bytes)
    requires Scalar(c)
  {
    if c < 0x80 then [c]
    else if c < 0x800 then [0xC0 + c / 64, 0x80 + c % 64]
    else if c < 0x1_0000 then [0xE0 + c / 64 / 64, 0x80 + c / 64 % 64, 0x80 + c % 64]
    else [0xF0 + c / 64 / 64 / 64, 0x80 + c / 64 / 64 % 64, 0x80 + c / 64 % 64, 0x80 + c % 64]
  }

  /** There is a character at the front exactly if a scalar value is written there. */
  lemma CharIsScalar(s: bytes) returns (c: nat)
    requires CharLen(s) > 0
    ensures Scalar(c) && CharOf(c) == s[..CharLen(s)]
  {
    var n := CharLen(s);
    assert s[..n] == if n == 1 then [s[0]] else if n == 2 then [s[0], s[1]] else if n == 3 then [s[0], s[1], s[2]]
                     else [s[0], s[1], s[2], s[3]];
    c := s[0];
    if n == 2 {
      c := Six(s[0] as nat - 0xC0, s[1]);
    } else if n == 3 {
      c := Six(s[0] as nat - 0xE0, s[1]);
      c := Six(c, s[2]);
    } else if n == 4 {
      c := Six(s[0] as nat - 0xF0, s[1]);
      c := Six(c, s[2]);
      c := Six(c, s[3]);
    }
  }

  /** Six bits more. */
  lemma Six(high: nat, b: byte) returns (c: nat)
    requires Tail(b)
    ensures c == 64 * high + b - 0x80 && c / 64 == high && c % 64 == b as nat - 0x80
  {
    c := 64 * high + b - 0x80;
  }

  lemma ScalarIsChar(c: nat, rest: bytes)
    requires Scalar(c)
    ensures CharLen(CharOf(c) + rest) == |CharOf(c)| > 0
  {
  }

  predicate ValidUtf8(s: bytes) {
    s == [] || (CharLen(s) > 0 && ValidUtf8(s[CharLen(s)..]))
  }

  /** A string, as its bytes. */
  type text = s: bytes | ValidUtf8(s)
}
