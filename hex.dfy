/** Bytes and their lowercase base16 text form (section 8 of RFC 4648), as
    produced by Go's `hex.EncodeToString` for the tree's `RootHash`. */
module Hex {

  /** One octet, the element type of Go's `[]byte`. */
  newtype byte = x: int | 0 <= x < 256

  /** The base16 alphabet, lowercase. */
  const Digits: string := "0123456789abcdef"

  /** The character that encodes one 4-bit value. */
  function HexDigit(v: int): char
    requires 0 <= v < 16
  {
    Digits[v]
  }

  /** Two characters per byte: the high half first, then the low half. */
  function Encode(s: seq<byte>): (r: string)
    ensures |r| == 2 * |s|
    ensures forall k :: 0 <= k < |r| ==> r[k] in Digits
  {
    if s == [] then []
    else [HexDigit(s[0] as int / 16), HexDigit(s[0] as int % 16)] + Encode(s[1..])
  }

  /** Characters 2k and 2k+1 of the text are the two halves of byte k. */
  lemma {:induction false} EncodeAt(s: seq<byte>, k: nat)
    requires k < |s|
    ensures |Encode(s)| == 2 * |s|
    ensures Encode(s)[2 * k] == HexDigit(s[k] as int / 16)
    ensures Encode(s)[2 * k + 1] == HexDigit(s[k] as int % 16)
  {
    var head := [HexDigit(s[0] as int / 16), HexDigit(s[0] as int % 16)];
    var tail := Encode(s[1..]);
    assert Encode(s) == head + tail;
    if k > 0 {
      EncodeAt(s[1..], k - 1);
      assert s[1..][k - 1] == s[k];
      assert (head + tail)[2 * k] == tail[2 * (k - 1)];
      assert (head + tail)[2 * k + 1] == tail[2 * (k - 1) + 1];
    }
  }

  lemma HexDigitInjective(u: int, v: int)
    requires 0 <= u < 16 && 0 <= v < 16
    requires HexDigit(u) == HexDigit(v)
    ensures u == v
  {
  }

  /** Different byte strings never share a text form, so comparing the
      encoded strings is the same as comparing the bytes. */
  lemma {:induction false} EncodeInjective(a: seq<byte>, b: seq<byte>)
    requires Encode(a) == Encode(b)
    ensures a == b
  {
    if a != [] {
      assert |b| == |a|;
      var ea, eb := Encode(a), Encode(b);
      assert ea[0] == eb[0] && ea[1] == eb[1];
      HexDigitInjective(a[0] as int / 16, b[0] as int / 16);
      HexDigitInjective(a[0] as int % 16, b[0] as int % 16);
      assert a[0] == b[0];
      assert Encode(a[1..]) == ea[2..] == eb[2..] == Encode(b[1..]);
      EncodeInjective(a[1..], b[1..]);
      assert a == [a[0]] + a[1..];
      assert b == [b[0]] + b[1..];
    }
  }
}
