/** Bytes, hexadecimal text, and the byte-reversed display form of a hash. */
module ByteStrings {

  type byte = x: int | 0 <= x < 256

  type uint64 = x: int | 0 <= x < 0x1_0000_0000_0000_0000

  /** The 32 bytes of a double SHA-256, in the order in which the hash function yields them. */
  type Digest = s: seq<byte> | |s| == 32 witness seq(32, _ => 0)

  /** Double SHA-256 is a parameter of the model: any function from bytes to digests. */
  type Sha256d = seq<byte> -> Digest

  function Reverse(b: seq<byte>): (r: seq<byte>)
    ensures |r| == |b|
    ensures forall i :: 0 <= i < |b| ==> r[i] == b[|b| - 1 - i]
  {
    seq(|b|, i requires 0 <= i < |b| => b[|b| - 1 - i])
  }

  lemma ReverseReverse(b: seq<byte>)
    ensures Reverse(Reverse(b)) == b
  {
  }

  function HexDigit(d: int): (c: char)
    requires 0 <= d < 16
    ensures HexValue(c) == d && IsLowerDigit(c)
  {
    "0123456789abcdef"[d]
  }

  /** The value of one hexadecimal character, or -1 when it is none. Both cases of letters are read. */
  function HexValue(c: char): (v: int)
    ensures -1 <= v < 16
  {
    if '0' <= c <= '9' then c as int - '0' as int
    else if 'a' <= c <= 'f' then c as int - 'a' as int + 10
    else if 'A' <= c <= 'F' then c as int - 'A' as int + 10
    else -1
  }

  predicate IsLowerDigit(c: char) {
    '0' <= c <= '9' || 'a' <= c <= 'f'
  }

  /** Lower-case hexadecimal text of bytes (hex.EncodeToString). */
  function Hex(b: seq<byte>): (s: string)
    ensures |s| == 2 * |b|
    ensures IsLowerHex(s)
  {
    if b == [] then ""
    else [HexDigit(b[0] / 16), HexDigit(b[0] % 16)] + Hex(b[1..])
  }

  predicate IsHex(s: string) {
    |s| % 2 == 0 && forall i :: 0 <= i < |s| ==> HexValue(s[i]) >= 0
  }

  predicate IsLowerHex(s: string) {
    |s| % 2 == 0 && forall i :: 0 <= i < |s| ==> IsLowerDigit(s[i])
  }

  /** The bytes decoded before the first defect (hex.DecodeString returns them beside its error). */
  function Unhex(s: string): (b: seq<byte>)
    ensures IsHex(s) ==> |s| == 2 * |b|
  {
    if |s| < 2 || HexValue(s[0]) < 0 || HexValue(s[1]) < 0 then []
    else [16 * HexValue(s[0]) + HexValue(s[1])] + Unhex(s[2..])
  }

  lemma {:induction false} UnhexHex(b: seq<byte>)
    ensures Unhex(Hex(b)) == b
  {
    if b != [] {
      UnhexHex(b[1..]);
      assert Hex(b)[2..] == Hex(b[1..]);
    }
  }

  lemma DigitOfPair(hi: char, lo: char)
    requires IsLowerDigit(hi) && IsLowerDigit(lo)
    ensures var v := 16 * HexValue(hi) + HexValue(lo);
      0 <= v < 256 && HexDigit(v / 16) == hi && HexDigit(v % 16) == lo
  {
    assert (16 * HexValue(hi) + HexValue(lo)) / 16 == HexValue(hi);
    DigitOfValue(hi);
    DigitOfValue(lo);
  }

  lemma DigitOfValue(c: char)
    requires IsLowerDigit(c)
    ensures HexDigit(HexValue(c)) == c
  {
  }

  lemma LowerIsHex(s: string)
    requires IsLowerHex(s)
    ensures IsHex(s)
  {
    forall i | 0 <= i < |s| ensures HexValue(s[i]) >= 0 {
      assert IsLowerDigit(s[i]);
    }
  }

  lemma {:induction false} HexUnhex(s: string)
    requires IsLowerHex(s)
    ensures Hex(Unhex(s)) == s
  {
    if s != "" {
      hide HexValue, HexDigit;
      var hi, lo, rest := s[0], s[1], s[2..];
      assert IsLowerDigit(hi) && IsLowerDigit(lo);
      DigitOfPair(hi, lo);
      HexUnhex(rest);
      var v: byte := 16 * HexValue(hi) + HexValue(lo);
      assert Unhex(s) == [v] + Unhex(rest);
      assert Hex(Unhex(s)) == [HexDigit(v / 16), HexDigit(v % 16)] + Hex(Unhex(s)[1..]);
      assert Unhex(s)[1..] == Unhex(rest);
      assert s == [hi, lo] + rest;
    }
  }

  /** The display form of a hash: its bytes reversed, in hexadecimal (StringFromBytesReverse). */
  function Show(b: seq<byte>): (s: string)
    ensures |s| == 2 * |b| && IsLowerHex(s)
  {
    Hex(Reverse(b))
  }

  /** The bytes behind a display form; defects of the text are ignored (BytesFromStringReverse). */
  function Read(s: string): (b: seq<byte>)
    ensures IsHex(s) ==> |s| == 2 * |b|
  {
    Reverse(Unhex(s))
  }

  lemma ReadShow(b: seq<byte>)
    ensures Read(Show(b)) == b
  {
    UnhexHex(Reverse(b));
  }

  /** Reading and showing again gives the same text exactly when it was lower-case hexadecimal. */
  lemma ShowRead(s: string)
    ensures Show(Read(s)) == s <==> IsLowerHex(s)
  {
    ReverseReverse(Unhex(s));
    if IsLowerHex(s) {
      HexUnhex(s);
    }
  }

  lemma ReadInjective(s: string, t: string)
    requires IsLowerHex(s) && IsLowerHex(t) && Read(s) == Read(t)
    ensures s == t
  {
    ShowRead(s);
    ShowRead(t);
  }
}
