/** `byte_to_hex_string` (src/tools.c) and the lowercase hex text the
    candidate suffix is made of. */
module Hex {
  import opened CStrings

  predicate IsByte(x: int) {
    0 <= x < 256
  }

  predicate AreBytes(bs: seq<int>) {
    forall i :: 0 <= i < |bs| ==> IsByte(bs[i])
  }

  predicate IsLowerHexChar(c: char) {
    '0' <= c <= '9' || 'a' <= c <= 'f'
  }

  predicate IsLowerHex(s: seq<char>) {
    forall i :: 0 <= i < |s| ==> IsLowerHexChar(s[i])
  }

  /** The value a lowercase hex digit stands for. */
  function HexValue(c: char): (v: nat)
    requires IsLowerHexChar(c)
    ensures v < 16
  {
    if c <= '9' then c as int - '0' as int else c as int - 'a' as int + 10
  }

  /** One nibble as the source's conditional expression writes it: values
      above 9 are offset from 'a', the others from '0'.  The result is a
      lowercase hex digit that reads back as `v`. */
  function HexDigit(v: int): (c: char)
    requires 0 <= v < 16
    ensures IsLowerHexChar(c) && HexValue(c) == v
  {
    if v > 9 then ((v - 10) + 'a' as int) as char else (v + '0' as int) as char
  }

  /** The two characters for one byte: quotient then remainder by 16. */
  function ByteHex(num: int): (r: seq<char>)
    requires IsByte(num)
    ensures |r| == 2 && IsLowerHex(r)
    ensures 16 * HexValue(r[0]) + HexValue(r[1]) == num
  {
    [HexDigit(num / 16), HexDigit(num % 16)]
  }

  /** The buffer after the call together with the pointer the call returns. */
  datatype Written = Written(buf: seq<char>, ptr: nat)

  /** `byte_to_hex_string(&buf[at], num)`: two lowercase hex characters
      at `at` and `at + 1`, a terminator at `at + 2`, and the pointer it
      was given handed back. */
  function ByteToHexString(buf: seq<char>, at: nat, num: int): (r: Written)
    requires IsByte(num)
    requires at + 3 <= |buf|
    ensures r.ptr == at
    ensures |r.buf| == |buf|
    ensures IsLowerHexChar(r.buf[at]) && IsLowerHexChar(r.buf[at + 1])
    ensures 16 * HexValue(r.buf[at]) + HexValue(r.buf[at + 1]) == num
    ensures r.buf[at..at + 2] == ByteHex(num)
    ensures r.buf[at + 2] == NUL
    ensures forall i :: 0 <= i < |buf| && !(at <= i < at + 3) ==> r.buf[i] == buf[i]
    ensures r.buf == buf[..at] + ByteHex(num) + [NUL] + buf[at + 3..]
  {
    Written(Overwrite(buf, at, ByteHex(num) + [NUL]), at)
  }

  /** A byte sequence as lowercase hex, two characters per byte. */
  function Encode(bs: seq<int>): (r: seq<char>)
    requires AreBytes(bs)
    ensures |r| == 2 * |bs| && |r| % 2 == 0
    ensures IsLowerHex(r)
  {
    if |bs| == 0 then [] else Encode(bs[..|bs| - 1]) + ByteHex(bs[|bs| - 1])
  }

  /** The byte two hex digits stand for, the high nibble first. */
  function PairValue(hi: char, lo: char): (v: nat)
    requires IsLowerHexChar(hi) && IsLowerHexChar(lo)
    ensures IsByte(v)
  {
    16 * HexValue(hi) + HexValue(lo)
  }

  /** Reads lowercase hex text back into bytes. */
  function Decode(s: seq<char>): (bs: seq<int>)
    requires |s| % 2 == 0 && IsLowerHex(s)
    ensures 2 * |bs| == |s|
  {
    if |s| == 0 then []
    else Decode(s[..|s| - 2]) + [PairValue(s[|s| - 2], s[|s| - 1])]
  }

  lemma EncodeSnoc(bs: seq<int>, b: int)
    requires AreBytes(bs) && IsByte(b)
    ensures AreBytes(bs + [b])
    ensures Encode(bs + [b]) == Encode(bs) + ByteHex(b)
  {
    assert (bs + [b])[..|bs|] == bs;
  }

  lemma DecodeSnoc(s: seq<char>, hi: char, lo: char)
    requires |s| % 2 == 0 && IsLowerHex(s) && IsLowerHexChar(hi) && IsLowerHexChar(lo)
    ensures IsLowerHex(s + [hi, lo])
    ensures Decode(s + [hi, lo]) == Decode(s) + [PairValue(hi, lo)]
  {
    var t := s + [hi, lo];
    assert t[..|t| - 2] == s;
  }

  /** The pair of digits of a byte's value is the byte's rendering. */
  lemma ByteHexOfPair(hi: char, lo: char)
    requires IsLowerHexChar(hi) && IsLowerHexChar(lo)
    ensures ByteHex(PairValue(hi, lo)) == [hi, lo]
  {
    var h := ByteHex(PairValue(hi, lo));
    HexDigitsUnique(h[0], hi, h[1], lo);
  }

  /** Decoding undoes encoding. */
  lemma {:induction false} DecodeEncode(bs: seq<int>)
    requires AreBytes(bs)
    ensures Decode(Encode(bs)) == bs
  {
    if |bs| > 0 {
      var init, last := bs[..|bs| - 1], bs[|bs| - 1];
      assert bs == init + [last];
      DecodeEncode(init);
      EncodeSnoc(init, last);
      var h := ByteHex(last);
      DecodeSnoc(Encode(init), h[0], h[1]);
      assert h == [h[0], h[1]];
    }
  }

  /** Every even-length lowercase hex text is the encoding of its decoding,
      so `Encode` reaches every such text. */
  lemma {:induction false} EncodeDecode(s: seq<char>)
    requires |s| % 2 == 0 && IsLowerHex(s)
    ensures AreBytes(Decode(s)) && Encode(Decode(s)) == s
  {
    if |s| > 0 {
      var init, hi, lo := s[..|s| - 2], s[|s| - 2], s[|s| - 1];
      assert s == init + [hi, lo];
      EncodeDecode(init);
      DecodeSnoc(init, hi, lo);
      EncodeSnoc(Decode(init), PairValue(hi, lo));
      ByteHexOfPair(hi, lo);
    }
  }

  /** Hex text holds no terminator. */
  lemma HexNulFree(s: seq<char>)
    requires IsLowerHex(s)
    ensures NulFree(s)
  {
    assert forall i :: 0 <= i < |s| ==> s[i] != NUL;
  }

  /** Two hex-digit pairs with the same byte value are the same pair. */
  lemma HexDigitsUnique(a: char, b: char, c: char, d: char)
    requires IsLowerHexChar(a) && IsLowerHexChar(b) && IsLowerHexChar(c) && IsLowerHexChar(d)
    requires 16 * HexValue(a) + HexValue(c) == 16 * HexValue(b) + HexValue(d)
    ensures a == b && c == d
  {
    assert HexValue(a) == HexValue(b) && HexValue(c) == HexValue(d);
  }
}
