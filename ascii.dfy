/** Bytes, ASCII lowercasing and the `decode("ascii", "ignore")` conversion. */
module Ascii {

  newtype byte = x: int | 0 <= x < 256

  predicate IsAscii(s: string)
  {
    forall i :: 0 <= i < |s| ==> s[i] as int < 128
  }

  /** The bytes of an ASCII string: a Python `b"..."` literal. */
  function Encode(s: string): (r: seq<byte>)
    requires IsAscii(s)
    ensures |r| == |s|
    ensures forall i :: 0 <= i < |s| ==> r[i] as int == s[i] as int
  {
    seq(|s|, i requires 0 <= i < |s| => s[i] as int as byte)
  }

  /** `bytes.lower()` on one byte: only `A`..`Z` change. */
  function LowerByte(b: byte): (r: byte)
    ensures !(65 <= r <= 90)
    ensures r == b || (65 <= b <= 90 && r == b + 32)
  {
    if 65 <= b <= 90 then b + 32 else b
  }

  /** `bytes.lower()`. */
  function LowerBytes(bs: seq<byte>): (r: seq<byte>)
    ensures |r| == |bs|
    ensures forall i :: 0 <= i < |bs| ==> r[i] == LowerByte(bs[i])
  {
    seq(|bs|, i requires 0 <= i < |bs| => LowerByte(bs[i]))
  }

  /** `str.lower()` on one ASCII character: only `A`..`Z` change. */
  function LowerChar(c: char): (r: char)
    ensures !('A' <= r <= 'Z')
    ensures r == c || ('A' <= c <= 'Z' && r as int == c as int + 32)
  {
    if 'A' <= c <= 'Z' then (c as int + 32) as char else c
  }

  /** `str.lower()` on a string known to be ASCII, where it changes only `A`..`Z`. */
  function LowerAscii(s: string): (r: string)
    requires IsAscii(s)
    ensures |r| == |s| && IsAscii(r)
    ensures forall i :: 0 <= i < |s| ==> r[i] == LowerChar(s[i])
  {
    seq(|s|, i requires 0 <= i < |s| => LowerChar(s[i]))
  }

  /** `bytes.decode("ascii", "ignore")`: every byte of 128 or more is dropped, the rest kept in order. */
  function AsciiIgnore(bs: seq<byte>): (r: string)
    ensures IsAscii(r)
    ensures |r| <= |bs|
    decreases |bs|
  {
    if bs == [] then ""
    else (if bs[0] < 128 then [bs[0] as int as char] else []) + AsciiIgnore(bs[1..])
  }

  /** Decoding works piecewise: the decoding of a concatenation is the concatenation of the decodings. */
  lemma {:induction false} AsciiIgnoreConcat(a: seq<byte>, b: seq<byte>)
    ensures AsciiIgnore(a + b) == AsciiIgnore(a) + AsciiIgnore(b)
    decreases |a|
  {
    if a != [] {
      assert (a + b)[1..] == a[1..] + b;
      AsciiIgnoreConcat(a[1..], b);
    } else {
      assert a + b == b;
    }
  }

  /** A byte of 128 or more contributes nothing, wherever it stands. */
  lemma DropsHighByte(a: seq<byte>, x: byte, b: seq<byte>)
    requires x >= 128
    ensures AsciiIgnore(a + [x] + b) == AsciiIgnore(a + b)
  {
    AsciiIgnoreConcat(a + [x], b);
    AsciiIgnoreConcat(a, [x]);
    AsciiIgnoreConcat(a, b);
  }

  /** Decoding the bytes of an ASCII string gives the string back. */
  lemma {:induction false} AsciiIgnoreEncode(s: string)
    requires IsAscii(s)
    ensures AsciiIgnore(Encode(s)) == s
    decreases |s|
  {
    if s != [] {
      assert Encode(s)[1..] == Encode(s[1..]);
      AsciiIgnoreEncode(s[1..]);
    }
  }

  /** Lowercasing a byte keeps it on the same side of 128 and agrees with lowercasing its character. */
  lemma LowerByteChar(b: byte)
    ensures LowerByte(b) < 128 <==> b < 128
    ensures b < 128 ==> LowerByte(b) as int as char == LowerChar(b as int as char)
  {
  }

  /** ASCII lowercasing works piecewise. */
  lemma LowerAsciiConcat(x: string, y: string)
    requires IsAscii(x) && IsAscii(y)
    ensures IsAscii(x + y)
    ensures LowerAscii(x + y) == LowerAscii(x) + LowerAscii(y)
  {
    assert IsAscii(x + y) by {
      forall i | 0 <= i < |x + y| ensures (x + y)[i] as int < 128 {
        if i >= |x| {
          assert (x + y)[i] == y[i - |x|];
        }
      }
    }
  }

  /** Lowercasing before or after decoding gives the same text. */
  lemma {:induction false} LowerCommutes(bs: seq<byte>)
    ensures AsciiIgnore(LowerBytes(bs)) == LowerAscii(AsciiIgnore(bs))
    decreases |bs|
  {
    if bs != [] {
      var lb := LowerBytes(bs);
      assert lb[1..] == LowerBytes(bs[1..]);
      LowerCommutes(bs[1..]);
      LowerByteChar(bs[0]);
      var head: string := if bs[0] < 128 then [bs[0] as int as char] else [];
      var tail := AsciiIgnore(bs[1..]);
      assert AsciiIgnore(bs) == head + tail;
      assert AsciiIgnore(lb) == LowerAscii(head) + AsciiIgnore(lb[1..]);
      LowerAsciiConcat(head, tail);
    }
  }
}
