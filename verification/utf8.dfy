/** Well-formed UTF-8 (the table of RFC 3629, section 4), the check Rust's
    `read_to_string` applies to the bytes it reads. */
module Utf8 {

  import opened Bytes

  predicate IsContinuation(b: Byte) { 0x80 <= b <= 0xBF }

  /** The length of the well-formed character that starts `s`, or 0 when `s`
      does not start with one. */
  function CharWidth(s: seq<Byte>): (w: nat)
    requires 0 < |s|
    ensures w <= 4 && w <= |s|
  {
    var b0 := s[0];
    if b0 < 0x80 then 1
    else if 0xC2 <= b0 <= 0xDF then
      (if 2 <= |s| && IsContinuation(s[1]) then 2 else 0)
    else if 0xE0 <= b0 <= 0xEF then
      (if 3 <= |s| && IsContinuation(s[2]) &&
          (if b0 == 0xE0 then 0xA0 <= s[1] <= 0xBF
           else if b0 == 0xED then 0x80 <= s[1] <= 0x9F
           else IsContinuation(s[1]))
       then 3 else 0)
    else if 0xF0 <= b0 <= 0xF4 then
      (if 4 <= |s| && IsContinuation(s[2]) && IsContinuation(s[3]) &&
          (if b0 == 0xF0 then 0x90 <= s[1] <= 0xBF
           else if b0 == 0xF4 then 0x80 <= s[1] <= 0x8F
           else IsContinuation(s[1]))
       then 4 else 0)
    else 0
  }

  predicate ValidUtf8(s: seq<Byte>)
    decreases |s|
  {
    |s| == 0 || (CharWidth(s) > 0 && ValidUtf8(s[CharWidth(s)..]))
  }

  predicate AllAscii(s: seq<Byte>) {
    forall i | 0 <= i < |s| :: s[i] < 0x80
  }

  /** Every ASCII byte string is well-formed UTF-8. */
  lemma {:induction false} AsciiIsUtf8(s: seq<Byte>)
    requires AllAscii(s)
    ensures ValidUtf8(s)
  {
    if |s| > 0 {
      assert CharWidth(s) == 1;
      AsciiIsUtf8(s[1..]);
    }
  }

  /** A lone continuation byte, a truncated sequence and an encoded surrogate
      are all rejected. */
  lemma RejectsMalformed()
    ensures !ValidUtf8([0x80])
    ensures !ValidUtf8([0xC3])
    ensures !ValidUtf8([0xED, 0xA0, 0x80])
    ensures ValidUtf8([0xC3, 0xA9])
  {
    assert CharWidth([0xC3, 0xA9]) == 2;
    assert [0xC3, 0xA9][2..] == [];
  }
}
