/** Well-formed UTF-8 as section 4 of RFC 3629 defines it, which is what Go's utf8.ValidString tests. */
module Utf8 {
  import opened Wire

  predicate Tail(b: Byte) {
    0x80 <= b <= 0xBF
  }

  /** How many bytes the first character takes, or 0 when no character starts here. */
  function CharLength(s: Bytes): (n: nat)
    ensures n <= |s|
  {
    if s == [] then 0
    else if s[0] <= 0x7F then 1
    else if 0xC2 <= s[0] <= 0xDF && |s| >= 2 && Tail(s[1]) then 2
    else if |s| >= 3 && Tail(s[2]) && (
              (s[0] == 0xE0 && 0xA0 <= s[1] <= 0xBF)
              || (0xE1 <= s[0] <= 0xEC && Tail(s[1]))
              || (s[0] == 0xED && 0x80 <= s[1] <= 0x9F)
              || (0xEE <= s[0] <= 0xEF && Tail(s[1]))) then 3
    else if |s| >= 4 && Tail(s[2]) && Tail(s[3]) && (
              (s[0] == 0xF0 && 0x90 <= s[1] <= 0xBF)
              || (0xF1 <= s[0] <= 0xF3 && Tail(s[1]))
              || (s[0] == 0xF4 && 0x80 <= s[1] <= 0x8F)) then 4
    else 0
  }

  predicate ValidUtf8(s: Bytes) {
    s == [] || (CharLength(s) > 0 && ValidUtf8(s[CharLength(s)..]))
  }

  /** The bytes of an ASCII literal. */
  function Text(s: string): (bs: Bytes)
    ensures |bs| == |s| && forall i | 0 <= i < |bs| :: bs[i] < 128
  {
    seq(|s|, i requires 0 <= i < |s| => (s[i] as int) % 128)
  }

  lemma {:induction false} AsciiIsValid(s: Bytes)
    requires forall i | 0 <= i < |s| :: s[i] < 128
    ensures ValidUtf8(s)
  {
    if s != [] {
      AsciiIsValid(s[1..]);
    }
  }

  lemma TextIsValid(s: string)
    ensures ValidUtf8(Text(s))
  {
    AsciiIsValid(Text(s));
  }
}
