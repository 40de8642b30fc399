/**
 * Character-level facts about Rust strings.  A Dafny `string` is a sequence of
 * Unicode scalar values, which is what a Rust `str` iterates over with `chars()`;
 * `str::len()`, by contrast, counts the bytes of the UTF-8 encoding.
 */
module Text {

  /** Number of bytes in the UTF-8 encoding of `c`. */
  function Utf8Width(c: char): (w: nat)
    ensures 1 <= w <= 4
    ensures w == 1 <==> IsAscii(c)
  {
    if c as int < 0x80 then 1
    else if c as int < 0x800 then 2
    else if c as int < 0x1_0000 then 3
    else 4
  }

  predicate IsAscii(c: char) {
    c as int < 0x80
  }

  predicate AllAscii(s: string) {
    forall i :: 0 <= i < |s| ==> IsAscii(s[i])
  }

  /** `str::len()`: the length in bytes of the UTF-8 encoding of `s`. */
  function ByteLen(s: string): (n: nat)
    ensures |s| <= n <= 4 * |s|
    ensures n == 0 <==> |s| == 0
  {
    if |s| == 0 then 0 else ByteLen(s[..|s| - 1]) + Utf8Width(s[|s| - 1])
  }

  /** The byte length and the character count agree exactly on ASCII strings. */
  lemma {:induction false} ByteLenIsCharCount(s: string)
    ensures ByteLen(s) == |s| <==> AllAscii(s)
  {
    if |s| > 0 {
      var p := s[..|s| - 1];
      ByteLenIsCharCount(p);
      assert forall i :: 0 <= i < |p| ==> p[i] == s[i];
      if AllAscii(s) {
        assert AllAscii(p);
      }
      if ByteLen(s) == |s| {
        // Every character costs at least one byte, so neither the prefix nor
        // the last character can cost more.
        assert Utf8Width(s[|s| - 1]) == 1;
        forall i | 0 <= i < |s| ensures IsAscii(s[i]) {
          if i < |p| { assert IsAscii(p[i]); }
        }
      }
    }
  }

  /** Rust's `char::is_ascii_hexdigit`: `0-9`, `a-f` and `A-F`. */
  predicate IsAsciiHexDigit(c: char) {
    ('0' <= c <= '9') || ('a' <= c <= 'f') || ('A' <= c <= 'F')
  }

  predicate AllAsciiHex(s: string) {
    forall i :: 0 <= i < |s| ==> IsAsciiHexDigit(s[i])
  }

  /** A hex-digit string is ASCII, so its byte length is its character count. */
  lemma HexStringByteLen(s: string)
    requires AllAsciiHex(s)
    ensures ByteLen(s) == |s|
  {
    assert AllAscii(s);
    ByteLenIsCharCount(s);
  }
}
