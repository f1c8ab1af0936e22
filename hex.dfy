/** Bytes, SHA-256 digests as values, and Go's `hex.EncodeToString`. */
module Hex {

  newtype byte = x: int | 0 <= x < 256

  /** Size of a SHA-256 digest in bytes. */
  const DigestSize: nat := 32

  /** What `sha256.Sum` hands back: exactly 32 bytes.  The hash function
      itself is not modelled; callers receive it as a parameter. */
  type Digest = s: seq<byte> | |s| == DigestSize witness seq(DigestSize, _ => 0)

  /** The lower-case alphabet `hex.EncodeToString` writes: 0-9 then a-f. */
  predicate IsHexChar(c: char) {
    '0' <= c <= '9' || 'a' <= c <= 'f'
  }

  /** The character for a nibble. */
  function Digit(n: nat): (c: char)
    requires n < 16
    ensures IsHexChar(c)
  {
    if n < 10 then ('0' as int + n) as char else ('a' as int + n - 10) as char
  }

  /** Numeric value of a hex character; inverse of Digit. */
  function Value(c: char): (v: nat)
    requires IsHexChar(c)
    ensures v < 16 && Digit(v) == c
  {
    if c <= '9' then c as int - '0' as int else c as int - 'a' as int + 10
  }

  /** Two lower-case characters per byte, high nibble first. */
  function Encode(bs: seq<byte>): (s: string)
    ensures |s| == 2 * |bs|
    ensures forall i :: 0 <= i < |s| ==> IsHexChar(s[i])
  {
    if bs == [] then []
    else [Digit(bs[0] as int / 16), Digit(bs[0] as int % 16)] + Encode(bs[1..])
  }

  /** An even-length string over the alphabet: what Decode accepts. */
  predicate IsHex(s: string) {
    |s| % 2 == 0 && forall i :: 0 <= i < |s| ==> IsHexChar(s[i])
  }

  function Decode(s: string): (bs: seq<byte>)
    requires IsHex(s)
    ensures |bs| * 2 == |s|
  {
    if s == [] then []
    else [(Value(s[0]) * 16 + Value(s[1])) as byte] + Decode(s[2..])
  }

  /** Characters 2i and 2i+1 of the encoding are the two nibbles of byte i. */
  lemma {:induction false} EncodeAt(bs: seq<byte>, i: nat)
    requires i < |bs|
    ensures Encode(bs)[2 * i] == Digit(bs[i] as int / 16)
    ensures Encode(bs)[2 * i + 1] == Digit(bs[i] as int % 16)
  {
    if i > 0 {
      EncodeAt(bs[1..], i - 1);
    }
  }

  /** Value undoes the alphabet lookup. */
  lemma ValueAt(k: nat)
    requires k < 16
    ensures Value(Digit(k)) == k
  {
  }

  lemma {:induction false} DecodeEncode(bs: seq<byte>)
    ensures Decode(Encode(bs)) == bs
  {
    if bs != [] {
      var s := Encode(bs);
      assert s[2..] == Encode(bs[1..]);
      DecodeEncode(bs[1..]);
      ValueAt(bs[0] as int / 16);
      ValueAt(bs[0] as int % 16);
    }
  }

  /** Decoding one pair of hex characters and encoding the byte gives the
      pair back. */
  lemma PairRoundTrip(c0: char, c1: char, b: byte)
    requires IsHexChar(c0) && IsHexChar(c1)
    requires b as int == Value(c0) * 16 + Value(c1)
    ensures Digit(b as int / 16) == c0 && Digit(b as int % 16) == c1
  {
    NibbleSplit(Value(c0), Value(c1));
  }

  /** The high and low nibble of a byte built from two nibbles. */
  lemma NibbleSplit(hi: nat, lo: nat)
    requires hi < 16 && lo < 16
    ensures (hi * 16 + lo) / 16 == hi && (hi * 16 + lo) % 16 == lo
  {
  }

  lemma {:induction false} EncodeDecode(s: string)
    requires IsHex(s)
    ensures Encode(Decode(s)) == s
  {
    if s != [] {
      var t := s[2..];
      assert IsHex(t);
      var b := (Value(s[0]) * 16 + Value(s[1])) as byte;
      var bs := [b] + Decode(t);
      assert Decode(s) == bs;
      assert bs[1..] == Decode(t);
      EncodeDecode(t);
      PairRoundTrip(s[0], s[1], b);
      assert Encode(bs) == [Digit(b as int / 16), Digit(b as int % 16)] + Encode(Decode(t));
      assert s == [s[0], s[1]] + t;
    }
  }

  /** Distinct byte strings have distinct encodings. */
  lemma EncodeInjective(a: seq<byte>, b: seq<byte>)
    ensures Encode(a) == Encode(b) <==> a == b
  {
    if Encode(a) == Encode(b) {
      DecodeEncode(a);
      DecodeEncode(b);
    }
  }
}
