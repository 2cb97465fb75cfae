/** bump.go: the BUMP path of BRC-74, its binary form, and the root computed from it. */
module Bumps {
  import opened Outcomes
  import opened ByteStrings
  import opened MerkleTree
  import opened VarInts
  import opened Codecs
  import opened MerkleProofs
  import opened ProofBinaries
  import opened VerifyProofs

  /** A leaf of the path. The Go fields are pointers; a nil one is None here. */
  datatype Leaf = Leaf(offset: uint64, hash: Option<string>, txid: Option<bool>, duplicate: Option<bool>)

  datatype BUMP = BUMP(blockHeight: uint64, path: seq<seq<Leaf>>)

  // ---------- sorting a level ----------

  function Insert(l: Leaf, level: seq<Leaf>): seq<Leaf> {
    if level == [] then [l]
    else if l.offset <= level[0].offset then [l] + level
    else [level[0]] + Insert(l, level[1..])
  }

  /** A level sorted by offset. */
  function SortByOffset(level: seq<Leaf>): (sorted: seq<Leaf>)
    ensures |sorted| == |level|
  {
    if level == [] then [] else
      InsertLength(level[0], SortByOffset(level[1..]));
      Insert(level[0], SortByOffset(level[1..]))
  }

  lemma {:induction false} InsertLength(l: Leaf, level: seq<Leaf>)
    ensures |Insert(l, level)| == |level| + 1
  {
    if level != [] {
      InsertLength(l, level[1..]);
    }
  }

  ghost predicate Sorted(level: seq<Leaf>) {
    forall i, j :: 0 <= i < j < |level| ==> level[i].offset <= level[j].offset
  }

  ghost predicate DistinctOffsets(level: seq<Leaf>) {
    forall i, j :: 0 <= i < j < |level| ==> level[i].offset != level[j].offset
  }

  lemma {:induction false} InsertKeeps(l: Leaf, level: seq<Leaf>)
    ensures multiset(Insert(l, level)) == multiset(level) + multiset{l}
  {
    if level != [] {
      var first, others := level[0], level[1..];
      assert level == [first] + others;
      InsertKeeps(l, others);
    }
  }

  ghost predicate Above(bound: nat, level: seq<Leaf>) {
    forall i :: 0 <= i < |level| ==> bound <= level[i].offset
  }

  lemma {:induction false} InsertAbove(bound: nat, l: Leaf, level: seq<Leaf>)
    requires Above(bound, level) && bound <= l.offset
    ensures Above(bound, Insert(l, level))
  {
    if level != [] {
      InsertAbove(bound, l, level[1..]);
    }
  }

  lemma {:induction false} InsertSorts(l: Leaf, level: seq<Leaf>)
    requires Sorted(level)
    ensures Sorted(Insert(l, level))
  {
    if level != [] && l.offset > level[0].offset {
      InsertSorts(l, level[1..]);
      InsertAbove(level[0].offset, l, level[1..]);
    }
  }

  lemma {:induction false} SortSorts(level: seq<Leaf>)
    ensures Sorted(SortByOffset(level))
    ensures multiset(SortByOffset(level)) == multiset(level)
  {
    if level != [] {
      var first, others := level[0], level[1..];
      assert level == [first] + others;
      SortSorts(others);
      InsertSorts(first, SortByOffset(others));
      InsertKeeps(first, SortByOffset(others));
    }
  }

  /** With distinct offsets there is only one way to sort a level, so any sorting routine agrees. */
  lemma {:induction false} SortIsUnique(s: seq<Leaf>, t: seq<Leaf>)
    requires Sorted(s) && Sorted(t) && DistinctOffsets(s) && multiset(s) == multiset(t)
    ensures s == t
  {
    hide Sorted, DistinctOffsets;
    if s == [] {
      assert |multiset(t)| == |t|;
    } else {
      assert s[0] in multiset(t);
      assert t != [] && t[0] in multiset(s);
      SameFirst(s, t);
      DropFirst(s);
      DropFirst(t);
      OthersAreSorted(s);
      OthersAreSorted(t);
      SortIsUnique(s[1..], t[1..]);
      assert s == [s[0]] + s[1..] && t == [t[0]] + t[1..];
    }
  }

  lemma OthersAreSorted(s: seq<Leaf>)
    requires s != []
    ensures Sorted(s) ==> Sorted(s[1..])
    ensures DistinctOffsets(s) ==> DistinctOffsets(s[1..])
  {
  }

  lemma DropFirst(s: seq<Leaf>)
    requires s != []
    ensures multiset(s[1..]) == multiset(s) - multiset{s[0]}
  {
    assert s == [s[0]] + s[1..];
  }

  lemma SameFirst(s: seq<Leaf>, t: seq<Leaf>)
    requires Sorted(s) && Sorted(t) && DistinctOffsets(s) && s != [] && t != []
    requires s[0] in multiset(t) && t[0] in multiset(s)
    ensures s[0] == t[0]
  {
    var i :| 0 <= i < |s| && s[i] == t[0];
    var j :| 0 <= j < |t| && t[j] == s[0];
    assert s[0].offset <= s[i].offset && t[0].offset <= t[j].offset;
  }

  // ---------- encoding ----------

  /** Bytes follows the hash pointer of every leaf that is not a duplicate. */
  ghost predicate LeafEncodable(l: Leaf) {
    l.duplicate.Some? || l.hash.Some?
  }

  ghost predicate LevelEncodable(level: seq<Leaf>) {
    forall n :: 0 <= n < |level| ==> LeafEncodable(level[n])
  }

  ghost predicate AllEncodable(path: seq<seq<Leaf>>) {
    forall n :: 0 <= n < |path| ==> LevelEncodable(path[n])
  }

  function LeafFlags(l: Leaf): byte {
    (if l.duplicate.Some? then 1 else 0) + (if l.txid.Some? then 2 else 0)
  }

  function LeafBody(l: Leaf): seq<byte> {
    if l.duplicate.Some? || l.hash.None? then [] else Read(l.hash.value)
  }

  function LeafBytes(l: Leaf): seq<byte> {
    VarInt(l.offset) + ([LeafFlags(l)] + LeafBody(l))
  }

  function LevelBytes(level: seq<Leaf>): seq<byte> {
    VarInt(|level| % 0x1_0000_0000_0000_0000) + Concat(LeafBytes, level)
  }

  function BumpBytes(b: BUMP): seq<byte> {
    VarInt(b.blockHeight) + ([|b.path| % 256] + Concat(LevelBytes, b.path))
  }

  method Bytes(bump: BUMP) returns (r: Result<seq<byte>>)
    ensures r == if AllEncodable(bump.path) then Ok(BumpBytes(bump)) else Err(Panic)
  {
    hide VarInt, LeafBytes, LevelBytes, LevelEncodable;
    var treeHeight := |bump.path|;
    var bytes := VarInt(bump.blockHeight);
    bytes := bytes + [treeHeight % 256];
    ghost var head := bytes;
    for level := 0 to treeHeight
      invariant AllEncodable(bump.path[..level])
      invariant bytes == head + Concat(LevelBytes, bump.path[..level])
    {
      var levelBytes := EncodeLevel(bump.path[level]);
      if levelBytes.Err? {
        return Err(Panic);
      }
      assert bump.path[..level + 1] == bump.path[..level] + [bump.path[level]];
      ConcatAppend(LevelBytes, bump.path[..level], [bump.path[level]]);
      ConcatOne(LevelBytes, bump.path[level]);
      Append(head, Concat(LevelBytes, bump.path[..level]), LevelBytes(bump.path[level]));
      bytes := bytes + levelBytes.value;
    }
    assert bump.path[..treeHeight] == bump.path;
    Append(VarInt(bump.blockHeight), [treeHeight % 256], Concat(LevelBytes, bump.path));
    return Ok(bytes);
  }

  /** One level of the path: the count and then the leaves. */
  method EncodeLevel(level: seq<Leaf>) returns (r: Result<seq<byte>>)
    ensures r == if LevelEncodable(level) then Ok(LevelBytes(level)) else Err(Panic)
  {
    hide VarInt, LeafBytes, LeafEncodable;
    var nLeaves := |level|;
    var bytes := VarInt(nLeaves % 0x1_0000_0000_0000_0000);
    ghost var head := bytes;
    for n := 0 to nLeaves
      invariant LevelEncodable(level[..n])
      invariant bytes == head + Concat(LeafBytes, level[..n])
    {
      var leafBytes := EncodeLeaf(level[n]);
      if leafBytes.Err? {
        return Err(Panic);
      }
      assert level[..n + 1] == level[..n] + [level[n]];
      ConcatAppend(LeafBytes, level[..n], [level[n]]);
      ConcatOne(LeafBytes, level[n]);
      Append(head, Concat(LeafBytes, level[..n]), LeafBytes(level[n]));
      bytes := bytes + leafBytes.value;
    }
    assert level[..nLeaves] == level;
    return Ok(bytes);
  }

  /** One leaf: the offset, two flag bits, and the hash unless the leaf is a duplicate. */
  method EncodeLeaf(leaf: Leaf) returns (r: Result<seq<byte>>)
    ensures r == if LeafEncodable(leaf) then Ok(LeafBytes(leaf)) else Err(Panic)
  {
    hide VarInt, Read;
    var flags := 0;
    if leaf.duplicate.Some? {
      flags := flags + 1;
    }
    if leaf.txid.Some? {
      flags := flags + 2;
    }
    var bytes := VarInt(leaf.offset) + [flags];
    if flags % 2 == 0 {
      if leaf.hash.None? {
        return Err(Panic);
      }
      bytes := bytes + Read(leaf.hash.value);
    } else {
      assert bytes == bytes + LeafBody(leaf);
    }
    Append(VarInt(leaf.offset), [flags], LeafBody(leaf));
    return Ok(bytes);
  }

  // ---------- parsing ----------

  /** One leaf from the front of the bytes. */
  function ParseLeaf(b: seq<byte>): Result<(Leaf, seq<byte>)> {
    var offset :- ReadField(b);
    if offset.1 == [] then Err(Panic)
    else
      var flags, body := offset.1[0], offset.1[1..];
      var txid := if flags / 2 % 2 == 1 then Some(true) else None;
      if flags % 2 == 1 then Ok((Leaf(offset.0, None, txid, Some(true)), body))
      else if |body| < 32 then Err(NotEnoughData)
      else Ok((Leaf(offset.0, Some(Show(body[..32])), txid, None), body[32..]))
  }

  /** A VarInt and what follows it. */
  function ReadField(b: seq<byte>): Result<(uint64, seq<byte>)> {
    Left(b, ReadVarInt(b))
  }

  function ParseLevel(b: seq<byte>): Result<(seq<Leaf>, seq<byte>)> {
    var n :- ReadField(b);
    if n.0 == 0 then Err(EmptyLevel) else ParseMany(ParseLeaf, n.1, n.0)
  }

  /** The parser as a function: the BUMP, sorted level by level, and the bytes behind it. */
  function ParseBump(b: seq<byte>): Result<(BUMP, seq<byte>)> {
    if |b| < 37 then Err(NotEnoughData)
    else
      var height :- ReadField(b);
      if height.1 == [] then Err(Panic)
      else
        var levels :- ParseMany(ParseLevel, height.1[1..], height.1[0]);
        Ok((BUMP(height.0, Map(SortByOffset, levels.0)), levels.1))
  }

  method NewBUMPFromStream(bytes: seq<byte>) returns (r: Result<(BUMP, nat)>)
    ensures r.Ok? ==> r.value.1 <= |bytes|
    ensures Left(bytes, r) == ParseBump(bytes)
  {
    hide ParseLevel, ReadVarInt, Map, SortByOffset;
    if |bytes| < 37 {
      return Err(NotEnoughData);
    }
    var skip: nat := 0;
    var height := ReadVarInt(bytes[skip..]);
    assert bytes[skip..] == bytes;
    if height.Err? {
      return Err(height.error);
    }
    skip := skip + height.value.1;
    if |bytes| <= skip {
      return Err(Panic);
    }
    var treeHeight := bytes[skip];
    skip := skip + 1;
    assert bytes[height.value.1..][1..] == bytes[skip..];
    ghost var whole := ParseMany(ParseLevel, bytes[skip..], treeHeight);
    PrependNone(whole);
    var path := [];
    var lv := 0;
    while lv < treeHeight
      invariant 0 <= lv <= treeHeight && skip <= |bytes|
      invariant whole == Prepend(path, ParseMany(ParseLevel, bytes[skip..], treeHeight - lv))
    {
      var level := ParseLevelAt(bytes, skip);
      if level.Err? {
        return Err(level.error);
      }
      PrependTwice(path, [level.value.0], ParseMany(ParseLevel, bytes[level.value.1..], treeHeight - lv - 1));
      path := path + [level.value.0];
      skip := level.value.1;
      lv := lv + 1;
    }
    assert path + [] == path;
    var sorted := SortLevels(path);
    return Ok((BUMP(height.value.0, sorted), skip));
  }

  method SortLevels(path: seq<seq<Leaf>>) returns (sorted: seq<seq<Leaf>>)
    ensures sorted == Map(SortByOffset, path)
  {
    hide SortByOffset;
    sorted := path;
    for lv := 0 to |path|
      invariant |sorted| == |path|
      invariant forall n :: 0 <= n < lv ==> sorted[n] == SortByOffset(path[n])
      invariant forall n :: lv <= n < |path| ==> sorted[n] == path[n]
    {
      sorted := sorted[lv := SortByOffset(sorted[lv])];
    }
    assert sorted == Map(SortByOffset, path);
  }

  method ParseLevelAt(bytes: seq<byte>, start: nat) returns (r: Result<(seq<Leaf>, nat)>)
    requires start <= |bytes|
    ensures r.Ok? ==> r.value.1 <= |bytes|
    ensures Left(bytes, r) == ParseLevel(bytes[start..])
  {
    hide ParseLeaf, ReadVarInt;
    var skip: nat := start;
    var n := ReadVarInt(bytes[skip..]);
    if n.Err? {
      return Err(n.error);
    }
    var nLeavesAtThisHeight := n.value.0;
    skip := skip + n.value.1;
    assert bytes[start..][n.value.1..] == bytes[skip..];
    if nLeavesAtThisHeight == 0 {
      return Err(EmptyLevel);
    }
    ghost var whole := ParseMany(ParseLeaf, bytes[skip..], nLeavesAtThisHeight);
    PrependNone(whole);
    var level := [];
    var lf := 0;
    while lf < nLeavesAtThisHeight
      invariant 0 <= lf <= nLeavesAtThisHeight && skip <= |bytes|
      invariant whole == Prepend(level, ParseMany(ParseLeaf, bytes[skip..], nLeavesAtThisHeight - lf))
    {
      var leaf := ParseLeafAt(bytes, skip);
      if leaf.Err? {
        return Err(leaf.error);
      }
      PrependTwice(level, [leaf.value.0], ParseMany(ParseLeaf, bytes[leaf.value.1..], nLeavesAtThisHeight - lf - 1));
      level := level + [leaf.value.0];
      skip := leaf.value.1;
      lf := lf + 1;
    }
    assert level + [] == level;
    return Ok((level, skip));
  }

  method ParseLeafAt(bytes: seq<byte>, start: nat) returns (r: Result<(Leaf, nat)>)
    requires start <= |bytes|
    ensures r.Ok? ==> r.value.1 <= |bytes|
    ensures Left(bytes, r) == ParseLeaf(bytes[start..])
  {
    hide ReadVarInt, Show;
    var skip: nat := start;
    var offset := ReadVarInt(bytes[skip..]);
    if offset.Err? {
      return Err(offset.error);
    }
    skip := skip + offset.value.1;
    assert bytes[start..][offset.value.1..] == bytes[skip..];
    if |bytes| <= skip {
      return Err(Panic);
    }
    var flags := bytes[skip];
    ghost var body := bytes[skip..][1..];
    skip := skip + 1;
    assert body == bytes[skip..];
    var dup := flags % 2 == 1;
    var txid := flags / 2 % 2 == 1;
    var l := Leaf(offset.value.0, None, None, None);
    if dup {
      l := l.(duplicate := Some(true));
    } else {
      if |bytes| < skip + 32 {
        return Err(NotEnoughData);
      }
      l := l.(hash := Some(Show(bytes[skip..skip + 32])));
      assert body[..32] == bytes[skip..skip + 32];
      skip := skip + 32;
      assert body[32..] == bytes[skip..];
    }
    if txid {
      l := l.(txid := Some(true));
    }
    return Ok((l, skip));
  }

  // ---------- round trip ----------

  /** A leaf as it comes back: a duplicate loses its hash, a hash comes back in lower case, and the
      pointers to flags point to true. */
  function Canonical(l: Leaf): Leaf {
    Leaf(l.offset,
         if l.duplicate.Some? || l.hash.None? then None else Some(Lower(l.hash.value)),
         if l.txid.Some? then Some(true) else None,
         if l.duplicate.Some? then Some(true) else None)
  }

  function CanonicalLevel(level: seq<Leaf>): seq<Leaf> {
    Map(Canonical, level)
  }

  /** A leaf that the format can carry: a duplicate, or one with a hash of 32 bytes. */
  ghost predicate GoodLeaf(l: Leaf) {
    l.duplicate.Some? || (l.hash.Some? && |l.hash.value| == 64 && IsHex(l.hash.value))
  }

  ghost predicate GoodLevel(level: seq<Leaf>) {
    |level| < 0x1_0000_0000_0000_0000 && forall l :: l in level ==> GoodLeaf(l)
  }

  ghost predicate GoodPath(path: seq<seq<Leaf>>) {
    |path| <= 255 && forall level :: level in path ==> GoodLevel(level)
  }

  lemma ParseLeafBytes(l: Leaf, tail: seq<byte>)
    requires GoodLeaf(l)
    ensures ParseLeaf(LeafBytes(l) + tail) == Ok((Canonical(l), tail))
  {
    hide VarInt, ReadVarInt, Show, Read, IsHex;
    var flags, body := LeafFlags(l), LeafBody(l);
    var rest := [flags] + (body + tail);
    Append([flags], body, tail);
    Append(VarInt(l.offset), [flags] + body, tail);
    assert LeafBytes(l) + tail == VarInt(l.offset) + rest;
    VarIntRoundTrip(l.offset, rest);
    assert rest[1..] == body + tail;
    SplitParts(body, tail);
    assert l.duplicate.Some? ==> body + tail == tail;
    BodyLength(l);
  }

  lemma BodyLength(l: Leaf)
    requires GoodLeaf(l)
    ensures |LeafBody(l)| == if l.duplicate.Some? then 0 else 32
  {
  }

  lemma ParseLevelBytes(level: seq<Leaf>, tail: seq<byte>)
    requires GoodLevel(level)
    ensures ParseLevel(LevelBytes(level) + tail) ==
      if level == [] then Err(EmptyLevel) else Ok((CanonicalLevel(level), tail))
  {
    hide VarInt, ReadVarInt, LeafBytes, ParseLeaf, GoodLeaf;
    var leaves := Concat(LeafBytes, level);
    Append(VarInt(|level|), leaves, tail);
    VarIntRoundTrip(|level|, leaves + tail);
    forall l, t {:trigger ParseLeaf(LeafBytes(l) + t)} | l in level
      ensures ParseLeaf(LeafBytes(l) + t) == Ok((Canonical(l), t))
    {
      ParseLeafBytes(l, t);
    }
    ParseConcat(LeafBytes, ParseLeaf, Canonical, level, tail);
  }

  lemma ParseLevelsBytes(path: seq<seq<Leaf>>, tail: seq<byte>)
    requires GoodPath(path)
    ensures ParseMany(ParseLevel, Concat(LevelBytes, path) + tail, |path|) ==
      if [] in path then Err(EmptyLevel) else Ok((Map(CanonicalLevel, path), tail))
  {
    hide LevelBytes, ParseLevel, GoodLevel;
    forall level, t {:trigger ParseLevel(LevelBytes(level) + t)} | level in path
      ensures ParseLevel(LevelBytes(level) + t) ==
        if level == [] then Err(EmptyLevel) else Ok((CanonicalLevel(level), t))
    {
      ParseLevelBytes(level, t);
    }
    if [] in path {
      var at := FirstEmpty(path);
      ParseConcatFails(LevelBytes, ParseLevel, path, at, EmptyLevel, tail);
    } else {
      ParseConcat(LevelBytes, ParseLevel, CanonicalLevel, path, tail);
    }
  }

  lemma {:induction false} FirstEmpty(path: seq<seq<Leaf>>) returns (at: nat)
    requires [] in path
    ensures at < |path| && path[at] == [] && forall n :: 0 <= n < at ==> path[n] != []
  {
    at := 0;
    while path[at] != []
      invariant at < |path| && forall n :: 0 <= n < at ==> path[n] != []
      invariant [] in path[at..]
      decreases |path| - at
    {
      at := at + 1;
    }
  }

  function Arrived(level: seq<Leaf>): seq<Leaf> {
    SortByOffset(CanonicalLevel(level))
  }

  /** The BUMP stream round trip, for every BUMP of at most 255 levels that the format can carry and
      whatever follows it in the stream: it is read back with its levels sorted, and exactly its own bytes
      are used up, unless less than 37 bytes are there or some level is empty. */
  lemma BumpRoundTrip(b: BUMP, rest: seq<byte>)
    requires GoodPath(b.path)
    ensures ParseBump(BumpBytes(b) + rest) ==
      if |BumpBytes(b) + rest| < 37 then Err(NotEnoughData)
      else if [] in b.path then Err(EmptyLevel)
      else Ok((BUMP(b.blockHeight, Map(Arrived, b.path)), rest))
  {
    hide VarInt, ReadVarInt, LevelBytes, ParseLevel, GoodLevel, SortByOffset, CanonicalLevel;
    var k := |b.path|;
    var levels := Concat(LevelBytes, b.path);
    var body := [k] + (levels + rest);
    Append([k], levels, rest);
    Append(VarInt(b.blockHeight), [k] + levels, rest);
    assert BumpBytes(b) + rest == VarInt(b.blockHeight) + body;
    VarIntRoundTrip(b.blockHeight, body);
    assert body[1..] == levels + rest;
    ParseLevelsBytes(b.path, rest);
    assert Map(SortByOffset, Map(CanonicalLevel, b.path)) == Map(Arrived, b.path);
  }

  /** One hashed leaf makes the encoding long enough to be read. */
  lemma HashedLeafSuffices(b: BUMP, lv: nat, lf: nat)
    requires GoodPath(b.path) && lv < |b.path| && lf < |b.path[lv]| && b.path[lv][lf].duplicate.None?
    ensures |BumpBytes(b)| >= 37
  {
    hide VarInt, Read, Concat;
    var level := b.path[lv];
    assert level in b.path && level[lf] in level;
    ConcatLength(LevelBytes, b.path, lv);
    ConcatLength(LeafBytes, level, lf);
    BodyLength(level[lf]);
  }

  /** A leaf without anything to normalise. */
  ghost predicate PlainLeaf(l: Leaf) {
    && (l.txid == None || l.txid == Some(true))
    && ((l.duplicate == Some(true) && l.hash == None) || (l.duplicate == None && l.hash.Some? && IsHash(l.hash.value)))
  }

  lemma PlainLeafIsCanonical(l: Leaf)
    requires PlainLeaf(l)
    ensures Canonical(l) == l && GoodLeaf(l)
  {
    if l.hash.Some? {
      ShowRead(l.hash.value);
      LowerIsHex(l.hash.value);
    }
  }

  lemma PlainLevelIsCanonical(level: seq<Leaf>)
    requires forall l :: l in level ==> PlainLeaf(l)
    ensures CanonicalLevel(level) == level
    ensures forall l :: l in level ==> GoodLeaf(l)
  {
    hide PlainLeaf, Canonical, GoodLeaf;
    forall l | l in level ensures Canonical(l) == l && GoodLeaf(l) {
      PlainLeafIsCanonical(l);
    }
    assert Map(Canonical, level) == level;
  }

  /** A BUMP that a stream can carry. */
  ghost predicate Readable(b: BUMP) {
    GoodPath(b.path) && [] !in b.path && |BumpBytes(b)| >= 37
  }

  function ArrivedBump(b: BUMP): BUMP {
    BUMP(b.blockHeight, Map(Arrived, b.path))
  }

  /** Concatenated BUMPs are read back one by one. */
  lemma StreamRoundTrip(bumps: seq<BUMP>, rest: seq<byte>)
    requires forall b :: b in bumps ==> Readable(b)
    ensures ParseMany(ParseBump, Concat(BumpBytes, bumps) + rest, |bumps|) == Ok((Map(ArrivedBump, bumps), rest))
  {
    hide BumpBytes, ParseBump, Arrived, GoodPath;
    forall b, t {:trigger ParseBump(BumpBytes(b) + t)} | b in bumps
      ensures ParseBump(BumpBytes(b) + t) == Ok((ArrivedBump(b), t))
    {
      BumpRoundTrip(b, t);
    }
    ParseConcat(BumpBytes, ParseBump, ArrivedBump, bumps, rest);
  }
}
