/** Bitcoin variable-length integers (CompactSize): 1, 3, 5 or 9 bytes. */
module VarInts {
  import opened Outcomes
  import opened ByteStrings

  function LittleEndian(v: nat, n: nat): (b: seq<byte>)
    ensures |b| == n
  {
    if n == 0 then [] else [v % 256] + LittleEndian(v / 256, n - 1)
  }

  function FromLittleEndian(b: seq<byte>): (v: nat)
    ensures v < Pow256(|b|)
  {
    if b == [] then 0 else b[0] + 256 * FromLittleEndian(b[1..])
  }

  function Pow256(n: nat): nat {
    if n == 0 then 1 else 256 * Pow256(n - 1)
  }

  function VarInt(v: uint64): (b: seq<byte>)
    ensures 1 <= |b| <= 9
  {
    if v < 0xfd then [v]
    else if v < 0x1_0000 then [0xfd] + LittleEndian(v, 2)
    else if v < 0x1_0000_0000 then [0xfe] + LittleEndian(v, 4)
    else [0xff] + LittleEndian(v, 8)
  }

  /** The integer at the front and its size; a short slice panics. */
  function ReadVarInt(b: seq<byte>): (r: Result<(uint64, nat)>)
    ensures r.Ok? ==> 1 <= r.value.1 <= |b| && r.value.1 <= 9
  {
    if b == [] then Err(Panic)
    else
      var size := if b[0] == 0xff then 9 else if b[0] == 0xfe then 5 else if b[0] == 0xfd then 3 else 1;
      if |b| < size then Err(Panic)
      else
        Pow256Values();
        Ok((if size == 1 then b[0] else FromLittleEndian(b[1..size]), size))
  }

  lemma {:induction false} LittleEndianRoundTrip(v: nat, n: nat)
    requires v < Pow256(n)
    ensures FromLittleEndian(LittleEndian(v, n)) == v
  {
    if n > 0 {
      LittleEndianRoundTrip(v / 256, n - 1);
    }
  }

  lemma VarIntRoundTrip(v: uint64, rest: seq<byte>)
    ensures ReadVarInt(VarInt(v) + rest) == Ok((v, |VarInt(v)|))
    ensures (VarInt(v) + rest)[|VarInt(v)|..] == rest
  {
    var b := VarInt(v);
    assert b == [b[0]] + b[1..];
    assert (b + rest)[1..|b|] == b[1..];
    if 0xfd <= v {
      var n := |b| - 1;
      assert v < Pow256(n) by {
        Pow256Values();
      }
      LittleEndianRoundTrip(v, n);
    }
  }

  lemma Pow256Values()
    ensures Pow256(2) == 0x1_0000 && Pow256(4) == 0x1_0000_0000 && Pow256(8) == 0x1_0000_0000_0000_0000
  {
    assert Pow256(1) == 256 && Pow256(2) == 256 * Pow256(1);
    assert Pow256(3) == 256 * Pow256(2) && Pow256(4) == 256 * Pow256(3);
    assert Pow256(5) == 256 * Pow256(4) && Pow256(6) == 256 * Pow256(5);
    assert Pow256(7) == 256 * Pow256(6) && Pow256(8) == 256 * Pow256(7);
  }
}
