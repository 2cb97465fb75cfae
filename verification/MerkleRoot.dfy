/** merkleroot.go: Merkle trees laid out level by level in one array. */
module MerkleRoot {
  import opened Outcomes
  import opened ByteStrings
  import opened MerkleTree
  import opened MerkleTreeParents

  // ---------- the padded array, for any kind of node ----------

  /** The parent of two cells of the array: absent without a left child, and the left child with
      itself without a right one. */
  function Comb<H(==)>(a: Algebra<H>, l: H, r: H): H {
    if l == a.blank then a.blank
    else if r == a.blank then a.parent(l, l)
    else a.parent(l, r)
  }

  function PairUp<H(==)>(a: Algebra<H>, cells: seq<H>): (up: seq<H>)
    requires |cells| % 2 == 0
    ensures |up| == |cells| / 2
  {
    seq(|cells| / 2, j requires 0 <= j < |cells| / 2 => Comb(a, cells[2 * j], cells[2 * j + 1]))
  }

  /** The whole array of height k above a bottom level of 2^k cells. */
  function Store<H(==)>(a: Algebra<H>, bottom: seq<H>, k: nat): (cells: seq<H>)
    requires |bottom| == Pow2(k)
    ensures |cells| == 2 * |bottom| - 1
    decreases k
  {
    if k == 0 then bottom else bottom + Store(a, PairUp(a, bottom), k - 1)
  }

  function Pad<H>(a: Algebra<H>, xs: seq<H>, width: nat): (cells: seq<H>)
    requires |xs| <= width
    ensures |cells| == width
  {
    xs + seq(width - |xs|, _ => a.blank)
  }

  ghost predicate NonBlank<H>(a: Algebra<H>, xs: seq<H>) {
    forall i :: 0 <= i < |xs| ==> xs[i] != a.blank
  }

  /** The j-th cell above the bottom level is the combination of its two children. */
  ghost predicate IsCombined<H>(a: Algebra<H>, cells: seq<H>, width: nat, j: nat)
    requires |cells| == 2 * width - 1 && j < width - 1
  {
    cells[width + j] == Comb(a, cells[2 * j], cells[2 * j + 1])
  }

  /** The state of both builders' loops: `n` cells above the bottom level have been filled. */
  ghost predicate Filled<H>(a: Algebra<H>, bottom: seq<H>, cells: seq<H>, n: nat) {
    && |bottom| >= 1 && |cells| == 2 * |bottom| - 1 && n < |bottom|
    && cells[..|bottom|] == bottom
    && forall j :: 0 <= j < n ==> IsCombined(a, cells, |bottom|, j)
  }

  /** The equation which the loops of both builders establish, read as the recursive layout. */
  lemma {:induction false} FilledIsStore<H>(a: Algebra<H>, bottom: seq<H>, cells: seq<H>, k: nat)
    requires |bottom| == Pow2(k) && Filled(a, bottom, cells, |bottom| - 1)
    ensures cells == Store(a, bottom, k)
    decreases k
  {
    if k > 0 {
      hide PairUp, Filled;
      FilledAbove(a, bottom, cells, Pow2(k - 1));
      FilledIsStore(a, PairUp(a, bottom), cells[|bottom|..], k - 1);
    } else {
      assert cells == cells[..|bottom|];
    }
  }

  lemma FilledAbove<H>(a: Algebra<H>, bottom: seq<H>, cells: seq<H>, half: nat)
    requires half >= 1 && |bottom| == half + half && Filled(a, bottom, cells, |bottom| - 1)
    ensures |cells| >= |bottom| && cells == bottom + cells[|bottom|..]
    ensures Filled(a, PairUp(a, bottom), cells[|bottom|..], half - 1)
  {
    hide Comb;
    var width := |bottom|;
    var above := cells[width..];
    forall j | 0 <= j < half - 1
      ensures IsCombined(a, above, half, j)
    {
      assert IsCombined(a, cells, width, half + j);
    }
    forall j | 0 <= j < half
      ensures above[j] == PairUp(a, bottom)[j]
    {
      assert IsCombined(a, cells, width, j);
    }
    assert above[..half] == PairUp(a, bottom);
  }

  lemma FillOne<H>(a: Algebra<H>, bottom: seq<H>, cells: seq<H>, n: nat, cell: H)
    requires Filled(a, bottom, cells, n) && n < |bottom| - 1
    requires cell == Comb(a, cells[2 * n], cells[2 * n + 1])
    ensures Filled(a, bottom, cells[|bottom| + n := cell], n + 1)
  {
    hide Comb;
    var after := cells[|bottom| + n := cell];
    assert after[..|bottom|] == bottom;
    forall j | 0 <= j <= n ensures IsCombined(a, after, |bottom|, j) {
      assert j < n ==> IsCombined(a, cells, |bottom|, j);
    }
  }

  lemma PairUpPad<H(!new)>(a: Algebra<H>, xs: seq<H>, width: nat)
    requires Proper(a) && NonBlank(a, xs)
    requires |xs| <= 2 * width
    ensures PairUp(a, Pad(a, xs, 2 * width)) == Pad(a, NextLevel(a, xs), width)
    ensures NonBlank(a, NextLevel(a, xs))
  {
  }

  /** The first cell of level h in an array of padded width 2^k. */
  function LevelStart(k: nat, h: nat): nat
    requires h <= k
  {
    if h == 0 then 0 else Pow2(k) + LevelStart(k - 1, h - 1)
  }

  lemma {:induction false} LevelStartIs(k: nat, h: nat, j: nat)
    requires k == h + j
    ensures LevelStart(k, h) == 2 * Pow2(k) - 2 * Pow2(j)
  {
    if h == 0 {
      assert j == k;
    } else {
      LevelStartIs(k - 1, h - 1, j);
    }
  }

  lemma {:induction false} LevelFits<H>(a: Algebra<H>, xs: seq<H>, k: nat, h: nat, j: nat)
    requires k == h + j && |xs| <= Pow2(k)
    ensures |Level(a, xs, h)| <= Pow2(j)
    decreases h
  {
    if h == 0 {
      assert j == k;
    } else {
      LevelFits(a, NextLevel(a, xs), k - 1, h - 1, j);
    }
  }

  lemma BottomLevel<H>(a: Algebra<H>, xs: seq<H>, k: nat, m: nat)
    requires |xs| <= Pow2(k) && m < Pow2(k)
    ensures Store(a, Pad(a, xs, Pow2(k)), k)[m] == if m < |xs| then xs[m] else a.blank
  {
    hide PairUp;
  }

  /** Level h of the array holds the h-th list of the simple definition and then absent nodes only. */
  lemma {:induction false} Layout<H(!new)>(a: Algebra<H>, xs: seq<H>, k: nat, h: nat, j: nat, m: nat)
    requires Proper(a) && NonBlank(a, xs)
    requires k == h + j && |xs| <= Pow2(k) && m < Pow2(j)
    ensures LevelStart(k, h) + m < 2 * Pow2(k) - 1
    ensures Store(a, Pad(a, xs, Pow2(k)), k)[LevelStart(k, h) + m]
      == if m < |Level(a, xs, h)| then Level(a, xs, h)[m] else a.blank
    decreases h
  {
    hide PairUp, NextLevel, Pad;
    if h == 0 {
      assert j == k;
      BottomLevel(a, xs, k, m);
    } else {
      PairUpPad(a, xs, Pow2(k - 1));
      Layout(a, NextLevel(a, xs), k - 1, h - 1, j, m);
    }
  }

  // ---------- nextPowerOfTwo ----------

  /** Bitwise "and" of two non-negative integers. */
  function And(x: nat, y: nat): nat
    decreases x
  {
    if x == 0 then 0 else (if x % 2 == 1 && y % 2 == 1 then 1 else 0) + 2 * And(x / 2, y / 2)
  }

  function FloorLog2(n: nat): nat
    requires n >= 1
  {
    if n == 1 then 0 else 1 + FloorLog2(n / 2)
  }

  function NextPowerOfTwo(n: nat): nat
    requires n >= 1
  {
    if And(n, n - 1) == 0 then n else Pow2(FloorLog2(n) + 1)
  }

  lemma {:induction false} AndSelf(n: nat)
    ensures And(n, n) == n
  {
    if n > 0 {
      AndSelf(n / 2);
    }
  }

  /** The mask test recognises exactly the powers of two. */
  lemma {:induction false} MaskTest(n: nat)
    requires n >= 1
    ensures And(n, n - 1) == 0 <==> n == Pow2(FloorLog2(n))
    ensures Pow2(FloorLog2(n)) <= n < Pow2(FloorLog2(n) + 1)
  {
    if n > 1 {
      MaskTest(n / 2);
      if n % 2 == 1 {
        AndSelf(n / 2);
      } else {
        assert (n - 1) / 2 == n / 2 - 1;
      }
    }
  }

  /** nextPowerOfTwo yields the least power of two that is not below n. */
  lemma NextPowerOfTwoIsLeast(n: nat, j: nat)
    requires n >= 1
    ensures NextPowerOfTwo(n) == Pow2(Height(n))
    ensures n <= NextPowerOfTwo(n) < 2 * n
    ensures Pow2(j) >= n ==> Pow2(j) >= NextPowerOfTwo(n)
  {
    MaskTest(n);
    var f := FloorLog2(n);
    var k := if n == Pow2(f) then f else f + 1;
    assert NextPowerOfTwo(n) == Pow2(k);
    LeastPow2(n, k, Height(n));
    Pow2Doubles(j, k);
  }

  lemma LeastPow2(n: nat, j: nat, k: nat)
    requires n <= Pow2(j) < 2 * n && n <= Pow2(k) < 2 * n
    ensures j == k
  {
    Pow2Doubles(j, k);
    Pow2Doubles(k, j);
  }

  // ---------- the builders ----------

  /** The bottom level as `copy` leaves it in a zeroed array. */
  function Bottom<H>(a: Algebra<H>, leaves: seq<H>): (bottom: seq<H>)
    requires |leaves| >= 1
    ensures |bottom| == Pow2(Height(|leaves|))
  {
    NextPowerOfTwoIsLeast(|leaves|, 0);
    Pad(a, leaves, NextPowerOfTwo(|leaves|))
  }

  /** The whole array for a list of leaves, some of which may be blank. */
  function Tree<H(==)>(a: Algebra<H>, leaves: seq<H>): seq<H>
    requires |leaves| >= 1
  {
    Store(a, Bottom(a, leaves), Height(|leaves|))
  }

  /** A pair of text cells which the string builder cannot hash. */
  predicate BadPair(l: string, r: string) {
    l != "" && !(IsHex(l) && IsHex(r))
  }

  ghost predicate HasBadPair(bottom: seq<string>) {
    exists j :: 0 <= 2 * j && 2 * j + 1 < |bottom| && BadPair(bottom[2 * j], bottom[2 * j + 1])
  }

  lemma EvenWidth(n: nat)
    requires n >= 2
    ensures NextPowerOfTwo(n) % 2 == 0
  {
    NextPowerOfTwoIsLeast(n, 0);
  }

  /** An array that starts with the leaves and is otherwise zero. */
  lemma Copied<H>(a: Algebra<H>, leaves: seq<H>, cells: seq<H>)
    requires |leaves| >= 1 && |cells| == 2 * |Bottom(a, leaves)| - 1
    requires forall i :: 0 <= i < |cells| ==> cells[i] == if i < |leaves| then leaves[i] else a.blank
    ensures Filled(a, Bottom(a, leaves), cells, 0)
  {
    hide NextPowerOfTwo, Pow2, Height;
    assert cells[..|Bottom(a, leaves)|] == Bottom(a, leaves);
  }

  lemma CombPointers(sha: Sha256d, l: Option<Digest>, r: Option<Digest>)
    ensures Comb(PointerNodes(sha), l, r)
      == if l == None then None
         else if r == None then Some(MerkleTreeParentBytes(sha, l.value, l.value))
         else Some(MerkleTreeParentBytes(sha, l.value, r.value))
  {
    if l.Some? {
      ParentsAgree(sha, l.value, if r.Some? then r.value else l.value);
    }
  }

  method BuildMerkleTreeStoreChainHash(sha: Sha256d, txids: seq<Option<Digest>>)
    returns (merkles: array<Option<Digest>>)
    requires |txids| >= 1
    ensures fresh(merkles)
    ensures merkles[..] == Tree(PointerNodes(sha), txids)
  {
    hide NextPowerOfTwo, Pow2, Height, Filled, Pad, Store;
    ghost var a := PointerNodes(sha);
    ghost var bottom := Bottom(a, txids);
    var nextPoT := NextPowerOfTwo(|txids|);
    NextPowerOfTwoIsLeast(|txids|, 0);
    var arraySize := nextPoT * 2 - 1;
    merkles := new Option<Digest>[arraySize](i requires 0 <= i => if i < |txids| then txids[i] else None);
    Copied(a, txids, merkles[..]);
    var offset := nextPoT;
    var i := 0;
    while i < arraySize - 1
      invariant i == 2 * (offset - nextPoT) && nextPoT <= offset <= arraySize
      invariant Filled(a, bottom, merkles[..], offset - nextPoT)
    {
      ghost var before := merkles[..];
      CombPointers(sha, merkles[i], merkles[i + 1]);
      if merkles[i] == None {
        merkles[offset] := None;
      } else if merkles[i + 1] == None {
        merkles[offset] := Some(MerkleTreeParentBytes(sha, merkles[i].value, merkles[i].value));
      } else {
        merkles[offset] := Some(MerkleTreeParentBytes(sha, merkles[i].value, merkles[i + 1].value));
      }
      FillOne(a, bottom, before, offset - nextPoT, merkles[offset]);
      assert merkles[..] == before[offset := merkles[offset]];
      offset := offset + 1;
      i := i + 2;
    }
    FilledIsStore(a, bottom, merkles[..], Height(|txids|));
  }

  /** While text is hashed: the new cells are hexadecimal and the pairs below them were. */
  ghost predicate TextFilled(sha: Sha256d, bottom: seq<string>, cells: seq<string>, n: nat) {
    && Filled(TextNodes(sha), bottom, cells, n)
    && (forall m :: |bottom| <= m < |bottom| + n ==> IsHex(cells[m]))
    && (forall j :: 0 <= j < n && 2 * j + 1 < |bottom| ==> !BadPair(bottom[2 * j], bottom[2 * j + 1]))
  }

  lemma BadPairIsError(sha: Sha256d, l: string, r: string)
    ensures BadPair(l, r) <==> l != "" && MerkleTreeParentStr(sha, l, if r == "" then l else r).Err?
    ensures !BadPair(l, r) && l != "" ==>
      var parent := MerkleTreeParentStr(sha, l, if r == "" then l else r).value;
      IsHex(parent) && parent == Comb(TextNodes(sha), l, r)
    ensures l == "" ==> Comb(TextNodes(sha), l, r) == "" && IsHex("")
  {
    var right := if r == "" then l else r;
    ParentStrIsTextParent(sha, l, right);
    TextNodesProper(sha);
    LowerIsHex(TextNodes(sha).parent(l, right));
  }

  lemma BadPairBelow(sha: Sha256d, bottom: seq<string>, cells: seq<string>, n: nat)
    requires TextFilled(sha, bottom, cells, n) && n + 1 < |bottom| && |bottom| % 2 == 0
    ensures BadPair(cells[2 * n], cells[2 * n + 1])
      <==> 2 * n + 1 < |bottom| && BadPair(bottom[2 * n], bottom[2 * n + 1])
  {
    hide IsHex, Comb;
    if 2 * n < |bottom| {
      assert cells[2 * n] == cells[..|bottom|][2 * n] && cells[2 * n + 1] == cells[..|bottom|][2 * n + 1];
    }
  }

  lemma TextFillOne(sha: Sha256d, bottom: seq<string>, cells: seq<string>, n: nat, cell: string)
    requires TextFilled(sha, bottom, cells, n) && n + 1 < |bottom| && |bottom| % 2 == 0
    requires !BadPair(cells[2 * n], cells[2 * n + 1])
    requires cell == Comb(TextNodes(sha), cells[2 * n], cells[2 * n + 1]) && IsHex(cell)
    ensures TextFilled(sha, bottom, cells[|bottom| + n := cell], n + 1)
  {
    FillOne(TextNodes(sha), bottom, cells, n, cell);
    BadPairBelow(sha, bottom, cells, n);
    hide IsHex, Filled, BadPair;
  }

  /** The text builder fails exactly on a pair of leaves that it cannot decode. */
  method BuildMerkleTreeStore(sha: Sha256d, txids: seq<string>) returns (r: Result<array<string>>)
    requires |txids| >= 1
    ensures r.Err? <==> HasBadPair(Bottom(TextNodes(sha), txids))
    ensures r.Err? ==> r.error == BadHex
    ensures r.Ok? ==> fresh(r.value) && r.value[..] == Tree(TextNodes(sha), txids)
  {
    hide NextPowerOfTwo, Pow2, Height, Filled, Pad, Store, IsHex, BadPair, Comb;
    ghost var bottom := Bottom(TextNodes(sha), txids);
    var nextPoT := NextPowerOfTwo(|txids|);
    NextPowerOfTwoIsLeast(|txids|, 0);
    var arraySize := nextPoT * 2 - 1;
    var merkles := new string[arraySize](i requires 0 <= i => if i < |txids| then txids[i] else "");
    Copied(TextNodes(sha), txids, merkles[..]);
    var offset := nextPoT;
    var i := 0;
    while i < arraySize - 1
      invariant i == 2 * (offset - nextPoT) && nextPoT <= offset <= arraySize
      invariant TextFilled(sha, bottom, merkles[..], offset - nextPoT)
    {
      ghost var before := merkles[..];
      EvenWidth(|txids|);
      BadPairIsError(sha, merkles[i], merkles[i + 1]);
      BadPairBelow(sha, bottom, before, offset - nextPoT);
      if merkles[i] == "" {
        merkles[offset] := "";
      } else if merkles[i + 1] == "" {
        var newHash := MerkleTreeParentStr(sha, merkles[i], merkles[i]);
        if newHash.Err? {
          return Err(newHash.error);
        }
        merkles[offset] := newHash.value;
      } else {
        var newHash := MerkleTreeParentStr(sha, merkles[i], merkles[i + 1]);
        if newHash.Err? {
          return Err(newHash.error);
        }
        merkles[offset] := newHash.value;
      }
      TextFillOne(sha, bottom, before, offset - nextPoT, merkles[offset]);
      assert merkles[..] == before[offset := merkles[offset]];
      offset := offset + 1;
      i := i + 2;
    }
    FilledIsStore(TextNodes(sha), bottom, merkles[..], Height(|txids|));
    return Ok(merkles);
  }

  /** BuildMerkleRoot reads the last cell, which is the Merkle root when no txid is empty. */
  method BuildMerkleRoot(sha: Sha256d, txids: seq<string>) returns (r: Result<string>)
    requires |txids| >= 1
    ensures r.Err? <==> HasBadPair(Bottom(TextNodes(sha), txids))
    ensures r.Ok? ==> r.value == Tree(TextNodes(sha), txids)[|Tree(TextNodes(sha), txids)| - 1]
    ensures r.Ok? && "" !in txids ==> r.value == Root(TextNodes(sha), txids)
  {
    hide Pad, Store;
    var merkles := BuildMerkleTreeStore(sha, txids);
    if merkles.Err? {
      return Err(merkles.error);
    }
    var cells := merkles.value;
    assert cells.Length == |cells[..]|;
    ghost var noneEmpty := "" !in txids;
    if noneEmpty {
      TextNodesProper(sha);
      LastCellIsRoot(TextNodes(sha), txids);
    }
    return Ok(cells[cells.Length - 1]);
  }

  // ---------- what the arrays contain ----------

  /** The padded array refines the simple definition: with P = 2^k the padded width of n leaves and
      k = h + j, level h lies in the P/2^h = 2^j cells from 2P - 2P/2^h on; these are the
      ceil(n/2^h) nodes of the h-th list, followed by absent nodes only. */
  lemma TreeLevel<H(!new)>(a: Algebra<H>, leaves: seq<H>, h: nat, j: nat, m: nat)
    requires Proper(a) && NonBlank(a, leaves) && |leaves| >= 1
    requires Height(|leaves|) == h + j && m < Pow2(j)
    ensures Pow2(h + j) == NextPowerOfTwo(|leaves|)
    ensures |Level(a, leaves, h)| == (|leaves| + Pow2(h) - 1) / Pow2(h) <= Pow2(j)
    ensures var at := 2 * Pow2(h + j) - 2 * Pow2(j) + m;
      && 0 <= at < |Tree(a, leaves)|
      && Tree(a, leaves)[at] == if m < |Level(a, leaves, h)| then Level(a, leaves, h)[m] else a.blank
  {
    hide Pad, Store, Level, Height, FloorLog2;
    NextPowerOfTwoIsLeast(|leaves|, 0);
    Layout(a, leaves, h + j, h, j, m);
    LevelStartIs(h + j, h, j);
    LevelLength(a, leaves, h);
    LevelFits(a, leaves, h + j, h, j);
  }

  lemma LastCellIsRoot<H(!new)>(a: Algebra<H>, leaves: seq<H>)
    requires Proper(a) && NonBlank(a, leaves) && |leaves| >= 1
    ensures Tree(a, leaves)[|Tree(a, leaves)| - 1] == Root(a, leaves)
  {
    hide Pad, Store, Level, FloorLog2;
    RootIsLastLevel(a, leaves);
    TreeLevel(a, leaves, Height(|leaves|), 0, 0);
  }

  /** With non-empty txids the text builder fails exactly when there is something to hash and some
      txid is not hexadecimal. */
  lemma BadLeaves(sha: Sha256d, txids: seq<string>)
    requires |txids| >= 1 && "" !in txids
    ensures HasBadPair(Bottom(TextNodes(sha), txids))
      <==> |txids| >= 2 && exists i :: 0 <= i < |txids| && !IsHex(txids[i])
  {
    hide NextPowerOfTwo, IsHex;
    NextPowerOfTwoIsLeast(|txids|, 0);
    var bottom := Bottom(TextNodes(sha), txids);
    if |txids| >= 2 && exists i :: 0 <= i < |txids| && !IsHex(txids[i]) {
      var i :| 0 <= i < |txids| && !IsHex(txids[i]);
      EvenWidth(|txids|);
      assert BadPair(bottom[2 * (i / 2)], bottom[2 * (i / 2) + 1]);
    }
    if HasBadPair(bottom) {
      var j :| 0 <= 2 * j && 2 * j + 1 < |bottom| && BadPair(bottom[2 * j], bottom[2 * j + 1]);
      assert bottom[2 * j] == txids[2 * j];
      BadPairIsError(sha, "", "");
    }
  }

  // ---------- the two builders simulate each other ----------

  lemma ShowComb(sha: Sha256d, l: Option<Digest>, r: Option<Digest>)
    ensures ShowPointer(Comb(PointerNodes(sha), l, r)) == Comb(TextNodes(sha), ShowPointer(l), ShowPointer(r))
  {
    CombPointers(sha, l, r);
    if l.Some? {
      ParentsAgree(sha, l.value, if r.Some? then r.value else l.value);
    }
  }

  lemma ShowPairUp(sha: Sha256d, cells: seq<Option<Digest>>)
    requires |cells| % 2 == 0
    ensures PairUp(TextNodes(sha), Map(ShowPointer, cells)) == Map(ShowPointer, PairUp(PointerNodes(sha), cells))
  {
    hide Comb, TextNodes, PointerNodes, ShowPointer;
    forall j | 0 <= j < |cells| / 2
      ensures PairUp(TextNodes(sha), Map(ShowPointer, cells))[j]
        == Map(ShowPointer, PairUp(PointerNodes(sha), cells))[j]
    {
      ShowComb(sha, cells[2 * j], cells[2 * j + 1]);
    }
  }

  lemma {:induction false} ShowStore(sha: Sha256d, bottom: seq<Option<Digest>>, k: nat)
    requires |bottom| == Pow2(k)
    ensures Store(TextNodes(sha), Map(ShowPointer, bottom), k)
      == Map(ShowPointer, Store(PointerNodes(sha), bottom, k))
    decreases k
  {
    hide PairUp, Map, TextNodes, PointerNodes, ShowPointer;
    if k > 0 {
      var above := PairUp(PointerNodes(sha), bottom);
      ShowPairUp(sha, bottom);
      ShowStore(sha, above, k - 1);
      MapAppend(ShowPointer, bottom, Store(PointerNodes(sha), above, k - 1));
    }
  }

  /** Cell by cell, the text array shows the pointer array, nil as "". The lists may contain nils. */
  lemma StoresSimulate(sha: Sha256d, txids: seq<Option<Digest>>)
    requires |txids| >= 1
    ensures Tree(TextNodes(sha), Map(ShowPointer, txids)) == Map(ShowPointer, Tree(PointerNodes(sha), txids))
    ensures !HasBadPair(Bottom(TextNodes(sha), Map(ShowPointer, txids)))
  {
    hide Store, NextPowerOfTwo;
    var bottom := Bottom(PointerNodes(sha), txids);
    assert Bottom(TextNodes(sha), Map(ShowPointer, txids)) == Map(ShowPointer, bottom);
    ShowStore(sha, bottom, Height(|txids|));
    forall i | 0 <= i < |bottom| ensures IsHex(ShowPointer(bottom[i])) {
      if bottom[i].Some? {
        LowerIsHex(Show(bottom[i].value));
      }
    }
  }
}
