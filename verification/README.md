# A verified model of the go-bc Merkle tree and SPV code

go-bc is a Go library for Bitcoin SV block data. This project models its core in Dafny and proves what that
core is for:

- **Merkle trees in one array.** Both builders fill a padded array level by level. The array is proved to hold,
  level by level, the lists of the simple definition (pair neighbours, pair a lone last node with itself), and
  the five functions that fold a leaf up to a root are proved to agree with that definition and with each other.
- **Proofs and their binary forms.** TSC Merkle proofs and BUMPs (BRC-74) survive their encodings, the binary and
  the JSON verifier give the same verdict, both call every genuine proof of every leaf valid, and an accepted
  proof shows a txid of the block or exhibits two different 64-byte strings with the same double SHA-256.
- **Ancestries.** An ancestry created from honest stores, flattened in any order of the maps and parsed again,
  makes the payment verifier accept; and every payment accepted with proofs on is anchored: each walk backwards
  from it ends at a transaction whose proof verified for that very transaction.
- **The collector.** The goroutines of the SpecialK parser are modelled as interleaved steps: no deadlock, bounded
  runs, and the maps of a sequential pass in the end.
- **CrunchyNut envelopes.** What the recursive parser makes of every single-parent chain is stated exactly, and with
  it when the envelope that was written comes back.

Run `dafny verify dfyconfig.toml` in this directory.

## How the model is built

Double SHA-256 is a parameter `sha`: any function from bytes to 32 bytes. Merkle trees are defined once, over an
`Algebra` of nodes (a blank node and a way to combine two), and used for hash pointers, for display text, for
text in hashing order and for plain bytes; homomorphisms carry results from one to the other. Nothing assumes
that a real hash is injective: soundness results either name the collision that the proof contains, found by an
explicit walk beside the tree, or ask for an injective combination, which the free terms of `ProofFolds` provide.

Loops and updates in the Go code are methods with loops here; each is proved equal to a function of its inputs,
and the lemmas are about those functions. Objects that are filled in place (the list captured by `walkBranch`,
the envelopes of the CrunchyNut parser) are classes. Go maps that are ranged over are walked in an arbitrary
order. A Go runtime panic is the error `Panic`, so no input is excluded because the code would crash on it. The
lookups of block headers, transactions and proofs, the transaction decoder and the fee quote are parameters.

A writer and a parser that agree with each other could still both be wrong, so `WireFormats` also compares them with
the literal bytes of the formats, `CollectorPlaces` states the collector by the places of the flakes, and the
lemmas whose names end in `Means`, `Refuses` or `Refused` say what a verdict, an entry or an error is without the
functions that the methods are proved against.

Where the code does not do what one would expect, it is modelled as it is, with the exact condition:

- `CalculateRoot` writes a lone txid in lower case and `BuildMerkleRoot` does not, so the path of a block with one
  txid leads back to the root exactly when this txid is in lower case (`PathCompleteness`, `LoneUpperCaseTxid`).
- A BUMP taken from a tree and used directly panics in `CalculateRootGivenTxid` exactly for the last transaction
  of an odd number greater than one; after the byte round trip it never does (`BumpBeforeRoundTrip`,
  `ThirdOfThreePanics`, `BumpCompleteness`).
- The binary proof parser rejects every proof of 64 or more nodes, because the shift in its range test loses its
  bit; the JSON verifier has no such limit and does not test the index (`ParsedIsInRange`, `VerifiersAgree`).
- `MerkleRootFromBranches` accepts negative indexes, since after the shifts only `txIndex > 0` is an error.
- A BUMP with a single leaf is taken for a block of one transaction, whatever its leaf says, and any txid is returned
  as the root (`WholeBlockBump`).
- mAPI responses of a CrunchyNut link survive when this link has the proof; without a proof they make the parser put
  the parent into the child's envelope, and the child is lost (`RebuiltIsSame`, `LostChild`).
- A proof in a CrunchyNut envelope keeps its target type only when this is "header" or "blockhash"; the root of a
  block comes back as "blockhash" (`ProofReturns`).

## Model

| member | source | states |
|---|---|---|
| ByteStrings.ReadShow | endian.go:11-21 | Bytes shown in display form are read back unchanged. |
| ByteStrings.ShowRead | endian.go:11-21 | A text survives reading and showing exactly when it is lower-case hexadecimal. |
| MerkleTree.FoldPath | merklepath.go:98-137 | Folding any leaf of any tree with its own sibling path gives the root. |
| MerkleTree.FoldIndexModulo | merklepath.go:82-94 | A fold depends only on the index modulo 2^(path length). |
| MerkleTree.HeightOfSlice | bump.go:253-256 | A tree over any Go slice has at most 63 levels. |
| MerkleTreeParents.ParentsAgree | merkletreeparent.go:13-54 | The text, byte and pointer parents of two hashes are the same hash, shown or read. |
| MerkleTreeParents.ParentStrIsTextParent | merkletreeparent.go:13-24 | The text parent errs exactly on text that is not hexadecimal, and otherwise is the shown hash of both children. |
| MerkleRoot.MaskTest | merkleroot.go:170-179 | `n & (n-1) == 0` holds exactly for powers of two. |
| MerkleRoot.NextPowerOfTwoIsLeast | merkleroot.go:170-179 | The result is the least power of two not below n, with ceil(log2 n) as exponent. |
| MerkleRoot.BuildMerkleTreeStore | merkleroot.go:89-130 | For any txids, empty ones included, the loop fails exactly on a pair of leaves it cannot decode and otherwise fills the array of the recursive layout. |
| MerkleRoot.BuildMerkleTreeStoreChainHash | merkleroot.go:133-165 | The same for hash pointers, nils included; it never fails. |
| MerkleRoot.FilledIsStore | merkleroot.go:101-127 | Any array in which every cell above the bottom combines its two children is the recursive layout of 2^k, 2^(k-1), ..., 1 cells. |
| MerkleRoot.TreeLevel | merkleroot.go:53-130 | With P the padded width, level h starts at 2P - 2P/2^h and holds the ceil(n/2^h) nodes of the h-th list of the simple definition, then absent nodes only. |
| MerkleRoot.LastCellIsRoot | merkleroot.go:45-51 | The last cell is the root of the simple definition. |
| MerkleRoot.BuildMerkleRoot | merkleroot.go:45-51 | For non-empty txids the result is the root of the simple definition. |
| MerkleRoot.BadLeaves | merkleroot.go:107-125 | With non-empty txids the text builder fails exactly when there are at least two and one is not hexadecimal. |
| MerkleRoot.StoresSimulate | merkleroot.go:89-165 | Cell by cell the text array is the display of the pointer array, "" exactly for nil. |
| MerklePaths.CalculateRoot | merklepath.go:78-96 | The loop computes the fold of the path over the read bytes. |
| MerklePaths.CalculatedRootIsTextFold | merklepath.go:78-96 | The fold over bytes is the fold over text, letter for letter unless the path is empty and the txid not in lower case. |
| MerklePaths.PathElementsOfTree | merklepath.go:99-122 | From the tree array of two or more txids the recursion reads out exactly the sibling path. |
| MerklePaths.PathCompleteness | merklepath.go:78-137 | For every list of txids and index the path has ceil(log2 n) elements and leads back to the root, except exactly for a lone txid not in lower case. |
| MerklePaths.LoneUpperCaseTxid | merklepath.go:78-96 | The exception for the one txid "AB". |
| MerkleBranches.BranchWalker.WalkBranch | merklebranches.go:28-54 | The closure appends to the captured list the sibling path of the first hash. |
| MerkleBranches.GetMerkleBranches | merklebranches.go:22-59 | From the reversed hashes on, the branches are the sibling path of the first one. |
| MerkleBranches.BuildMerkleRootFromCoinbase | merkleroot.go:31-41 | The loop is the fold from index 0. |
| MerkleBranches.FirstPathIgnoresLeaf | merklebranches.go:28-54 | The branches do not change when the first leaf is replaced. |
| MerkleBranches.CoinbaseBranches | merkleroot.go:29-41 | For every list and every replacement of its first hash, the branches collected once give the Merkle root of the list with the replacement. |
| MerkleBranches.MerkleRootFromBranches | merklebranches.go:63-94 | Errs exactly on bad hexadecimal text and on an index of 2^(branches) or more; otherwise the result is that of CalculateRoot, for a negative index with its low bits. |
| ProofFolds.AcceptedIsLeaf | spv/verifymerkleproof.go:164-207 | For any hash: a proof of the right length that reaches the root shows the leaf standing at its index, or walking up finds two different pairs with the same parent. |
| ProofFolds.AcceptedIsLeafIfInjective | spv/verifymerkleproof.go:164-207 | With an injective parent the shown node is leaf i, and for n <= i < 2^k the leaf copied into that place. |
| ProofFolds.PositionOfLeaf | spv/verifymerkleproof.go:164-207 | The leaf standing at an index below n is the one of this index. |
| ProofFolds.GenuineAccepted | spv/verifymerkleproof.go:164-207 | A genuine proof, missing siblings given as "*" or as a copy, is accepted, flagged for the last leaf, and for another leaf only if two neighbours of the tree are equal. |
| ProofFolds.NoTwinsIfInjective | spv/verifymerkleproof.go:180-183 | With an injective parent and distinct leaves no two neighbours of the tree are equal. |
| ProofFolds.TwinsMeanClash | spv/verifymerkleproof.go:180-183 | For any hash: above distinct leaves, equal neighbours mean that two different pairs hashed in this tree have the same parent. |
| ProofFolds.LastInTree | spv/verifymerkleproof.go:164-207 | With an injective parent and distinct leaves the genuine proof of leaf i is valid and flagged last in tree exactly when i = n-1. |
| ProofFolds.RejectedMeans | spv/verifymerkleproof.go:173-178 | A fold is rejected exactly when some "*" stands on a level where the bit of the index makes the working node a right child. |
| ProofFolds.PathIsGenuine | spv/verifymerkleproof.go:164-207 | The path of every leaf is a genuine proof, with copies or with "*" where there is no sibling. |
| ProofFolds.StarlessFold | spv/verifymerkleproof.go:164-207 | Without "*" the verifier's fold is the plain fold. |
| ProofFolds.FreeTermsAreInjective | merkletreeparent.go:28-41 | A combination that remembers its parts is injective and never blank, so the results above apply to it. |
| VerifyProofs.VerifyProof | spv/verifymerkleproof.go:164-207 | The loop over text gives the verdict of the fold, and errs exactly when something to be hashed cannot be decoded or a "*" stands on the left. |
| VerifyProofs.VerdictErrs | spv/verifymerkleproof.go:164-207 | There is no verdict exactly when there are nodes and the leaf or a node is not hexadecimal or a "*" stands on the left; a proof without nodes compares the texts. |
| VerifyProofs.ProofSoundness | spv/verifymerkleproof.go:164-207 | On display hashes: an accepted proof shows the txid at its index (or the one copied there), or contains a collision of the double SHA-256. |
| VerifyProofs.ClashIsCollision | spv/verifymerkleproof.go:186-199 | A clash on the way up is two different 64-byte strings with the same hash. |
| VerifyProofs.GenuineTextProof | spv/verifymerkleproof.go:164-207 | The genuine proof of every txid is valid; it is flagged for the last one, and for another of distinct txids only if two pairs hashed in the tree clash. |
| VerifyProofs.FoldsAgree | spv/verifymerkleproof.go:164-207 | On hexadecimal leaves and paths verifyProof and CalculateRoot reach the same root, letter for letter unless a lone leaf is not in lower case, and only the low bits of the index matter. |
| VarInts.VarIntRoundTrip | merkleproof.go:34-34 | A CompactSize integer is read back from the front of any bytes, with its size. |
| MerkleProofs.Bytes | merkleproof.go:33-97 | The encoder errs exactly on text that is not hexadecimal and otherwise yields flags, index, length, transaction, target, count and nodes in this order. |
| ProofBinaries.ParseBinaryMerkleProof | spv/verifymerkleproof.go:251-328 | The parser with its moving offset is the function on the bytes that are left, error by error. |
| ProofBinaries.ProofRoundTrip | merkleproof.go:33-97 | Parsing the encoding of a well-formed proof gives back index, transaction or txid, target, nodes and flags exactly when the index is in range of at most 63 nodes, and is rejected otherwise. |
| ProofBinaries.ParsedIsInRange | spv/verifymerkleproof.go:301-306 | No bytes whatever parse to 64 or more nodes or to an index out of range. |
| ProofBinaries.ParsedIsTyped | spv/verifymerkleproof.go:265-325 | All parsed nodes are 32-byte hashes or "*", and the transaction field has 64 characters exactly without the transaction flag. |
| Verifiers.RootOfHeader | blockheader.go:99-139 | The root comes out of exactly the 80-byte headers, and it is the field between parent hash and time. |
| Verifiers.VerifyMerkleProof | spv/verifymerkleproof.go:32-105 | The result is the stated outcome, an error never comes with a positive verdict, and the txid is reported whenever it is known. |
| Verifiers.VerifyMerkleProofJSON | spv/verifymerkleproof.go:108-162 | The result is the stated outcome of the JSON form. |
| Verifiers.VerifiersAgree | spv/verifymerkleproof.go:32-162 | For every well-formed single branch proof both verifiers give the same txid, validity, flag or error when the index is in range of at most 63 nodes; otherwise the binary one always errs. |
| Verifiers.VerifierSoundness | spv/verifymerkleproof.go:32-105 | Bytes called valid against the root of a block, with as many nodes as its tree has levels, show a txid of the block, for an index of the block the one at this index, or break the hash function. |
| Verifiers.GenuineIsValid | spv/verifymerkleproof.go:32-162 | For every block, leaf and genuine proof, by txid or whole transaction and for each kind of target, both verifiers answer with this txid, valid, flagged if it is the last and otherwise only if two neighbours are equal. |
| Verifiers.TargetIsText | spv/verifymerkleproof.go:115-143 | A target by known block hash, by 80-byte header or by root leads to the root that it names. |
| Verifiers.JsonRefuses | spv/verifymerkleproof.go:108-162 | The JSON verifier errs exactly on the listed proof types, fields, targets and folds. |
| Verifiers.BinaryRefuses | spv/verifymerkleproof.go:32-105 | On bytes that parse, the binary verifier errs exactly on the listed transactions, targets and folds, and otherwise reports the carried txid. |
| Bumps.SortSorts | bump.go:90-95 | Sorting a level orders it by offset and keeps its leaves. |
| Bumps.SortIsUnique | bump.go:90-95 | With distinct offsets there is only one sorted order, so the sorting routine does not matter. |
| Bumps.Bytes | bump.go:129-153 | The encoder panics exactly on a leaf with neither duplicate mark nor hash and otherwise yields the stated bytes. |
| Bumps.NewBUMPFromStream | bump.go:34-98 | The parser with its cursor is the function on the bytes that are left, and reports the bytes used. |
| Bumps.BumpRoundTrip | bump.go:34-153 | Every BUMP of at most 255 levels that the format can carry is read back with sorted levels from the front of any bytes, using exactly its own bytes, unless fewer than 37 bytes are there or a level is empty. |
| Bumps.HashedLeafSuffices | bump.go:35-37 | One hashed leaf makes the encoding long enough. |
| Bumps.PlainLeafIsCanonical | bump.go:62-86 | A leaf with a lower-case hash or a duplicate mark comes back exactly as it was. |
| Bumps.StreamRoundTrip | bump.go:31-34 | Concatenated BUMPs are read back one by one. |
| BumpRoots.CalculateRootGivenTxid | bump.go:177-229 | The search and the loop over the levels compute the stated fold, with its errors and nil pointers. |
| BumpRoots.NewBUMPFromMerkleTreeAndIndex | bump.go:232-290 | The loop over the heights builds the stated BUMP, with its errors and panics. |
| BumpRoots.BuiltFromTree | bump.go:232-290 | From a tree array the index arithmetic reads out one sibling leaf per level, duplicates for missing ones, and puts the txid first only at index 0. |
| BumpRoots.SearchLowest | bump.go:184-196 | The search stops at a leaf that leads to the right parent, equal txids included, and panics exactly when a leaf without a hash comes first. |
| BumpRoots.BumpBeforeRoundTrip | bump.go:177-290 | Used directly, the BUMP leads to the root exactly unless the transaction is the last of an odd number above one; then the root calculation panics. |
| BumpRoots.ThirdOfThreePanics | bump.go:184-189 | The exception for the last of any three transactions. |
| BumpRoots.BumpCompleteness | bump.go:34-290 | For every list of hashes, repeated ones included, and every index, the BUMP written to bytes and read back leads from the txid to the last cell of the tree array. |
| BumpLookups.AbsentTxid | bump.go:184-196 | For every BUMP with several leaves, all lowest ones hashed, a txid is reported as missing exactly when no lowest leaf has this hash. |
| BumpLookups.PresentTxid | bump.go:184-228 | A root is only computed for the hash of a lowest leaf, from the offset of the first such leaf. |
| BumpLookups.StepUpMeans | bump.go:200-227 | At a level the first leaf beside the working node decides: a duplicate is a copy, a nil hash panics, and the side follows the bit of the index. |
| BumpLookups.WholeBlockBump | bump.go:171-229 | A BUMP for many transactions, any true leaves in any order, gives the block's root for every txid that it finds, or an error exactly when a sibling on the way up is missing. |
| AncestryBinary.IdIsDisplayed | spv/ancestry_binary.go:69-71 | The text of an id is the reversed-hex display of the hash of the bytes, and an id belongs to bytes exactly when it reads back as their hash. |
| AncestryBinary.ParseChunkAt | spv/ancestry_binary.go:97-109 | One chunk is read at an offset and the offset advances past it. |
| AncestryBinary.ParseChunkBytes | spv/ancestry_binary.go:97-109 | A written chunk is read back from the front of any bytes. |
| AncestryBinary.ParseAncestry | spv/ancestry_binary.go:45-95 | The loop with its map and current txid is the fold over the chunks, error by error. |
| AncestryBinary.NoNilPointer | spv/ancestry_binary.go:60-91 | On bytes that are chunks to the end the parser never follows a nil entry. |
| AncestryBinary.ParsedIsDecoded | spv/ancestry_binary.go:69-81 | Every entry has inputs and was decoded from bytes whose hash its key displays. |
| WireFormats.VarIntBytes | merkleproof.go:34-34 | A CompactSize integer is one byte below 0xfd, otherwise a marker and 2, 4 or 8 bytes, the lowest first. |
| WireFormats.ChunkOfType | spv/ancestry_binary.go:65-93 | Over literal bytes: type 1 files a transaction under the reversed hash of its bytes, type 2 sets the proof and type 3 the callbacks of the current one, other types change nothing. |
| WireFormats.AncestryRefused | spv/ancestry_binary.go:47-63 | The errors for other versions, an empty ancestry and a first chunk that is no transaction. |
| WireFormats.OneParentParsed | spv/ancestry_binary.go:45-95 | The literal bytes of one parent with a proof or callbacks give exactly its one entry. |
| WireFormats.OneParentWritten | spv/ancestry_json.go:57-90 | An ancestry with one proven parent is written as exactly these bytes, type 3 and a count before callbacks, type 2 before the proof. |
| WireFormats.GrandparentWritten | spv/ancestry_json.go:57-97 | A parent without a proof is followed by its own parents. |
| WireFormats.AncestorWritten | spv/ancestry_tsc_json.go:66-98 | In the flat list the proof comes before the callbacks. |
| WireFormats.ChainWritten | spv/envelope.go:69-105 | A link of an envelope chain is its transaction, one flake of type 3 for each response, and what follows it. |
| WireFormats.FlagsWritten | merkleproof.go:67-83 | Bit 0 marks a full transaction, bit 1 a header, bit 2 a Merkle root. |
| WireFormats.OneNodeParsed | spv/verifymerkleproof.go:251-328 | What is read from the literal bytes of a proof with one node, for every flags byte. |
| WireFormats.ProofRefused | spv/verifymerkleproof.go:272-322 | A transaction of at most 32 bytes and an unknown node type are refused. |
| WireFormats.RootByFlags | spv/verifymerkleproof.go:53-80 | Which root each flags byte asks for. |
| WireFormats.LeafWritten | bump.go:137-150 | The literal bytes of each kind of BUMP leaf. |
| WireFormats.LeafParsed | bump.go:62-86 | What each flags byte of a BUMP leaf means, higher bits included. |
| WireFormats.BumpRefused | bump.go:34-78 | Too few bytes, a level without leaves and a cut hash are refused. |
| WireFormats.BumpWritten | bump.go:129-153 | The literal bytes of a BUMP with one leaf. |
| WireFormats.BuiltRefused | bump.go:233-249 | What the constructor of a BUMP does with an empty array, a place without a node and a single cell. |
| WireFormats.OneParentPayment | spv/verifypayment.go:20-114 | A payment of one output of one proven parent, named in display order, is accepted exactly when the proof is valid for the parent's txid and the output exists. |
| AncestryJsons.SerialiseInputs | spv/ancestry_json.go:57-100 | In whatever order the maps are walked, the result is a flattening of the ancestry down to its proofs, and it errs exactly when something reached cannot be encoded. |
| AncestryJsons.AncestryBytes | spv/ancestry_json.go:46-55 | The version byte and a flattening of the parents. |
| AncestryRoundTrips.WritableMeans | spv/ancestry_json.go:57-100 | The writer succeeds exactly when everything that some path reaches without passing through a proof is hexadecimal, its proof included. |
| AncestryRoundTrips.ReadSerialised | spv/ancestry_binary.go:65-93 | Reading any flattening adds to the map exactly the ids of the visited transactions, each with its own entry. |
| AncestryRoundTrips.FlattenParse | spv/ancestry_json.go:46-100 | The parsed bytes have as keys exactly the transactions reached without descending below a proof, each with its own proof bytes. |
| AncestryRoundTrips.ParsedIsReached | spv/ancestry_json.go:46-100 | The parsed ids are exactly those of the transactions that some path of parents reaches without passing through a proof. |
| AncestryRoundTrips.ReachedIsFiled | spv/ancestry_json.go:46-100 | Whatever is reached is filed with its own transaction and proof bytes. |
| TscAncestries.ListBytes | spv/ancestry_tsc_json.go:59-102 | The flat list is written ancestor by ancestor and errs exactly on one that cannot be encoded. |
| TscAncestries.ListRoundTrip | spv/ancestry_tsc_json.go:59-102 | The flat list parses to its id-indexed map in which the last entry of an id wins; the empty list is refused. |
| CreateAncestries.CreateTxAncestry | spv/create_ancestry.go:12-66 | Succeeds exactly when the stores have all that is needed, and then the result has all parents, each from the stores, down to the proofs. |
| CreateAncestries.AncestryIsUnique | spv/create_ancestry.go:12-66 | A transaction has at most one ancestry in the stores. |
| CreateAncestries.AncestryIsAvailable | spv/create_ancestry.go:12-66 | Where there is an ancestry in which every transaction without a proof spends something, creation succeeds. |
| CreateAncestries.AvailableSpends | spv/create_ancestry.go:12-66 | What creation makes is such an ancestry. |
| Payments.VerifyPayment | spv/verifypayment.go:11-116 | Accepts exactly when every entry passes its checks, so the order of the walk over the map does not matter. |
| Payments.CheckEntry | spv/verifypayment.go:57-114 | Passes exactly when the entry does, and otherwise reports the first of missing inputs, a missing parent or bad proof, and a missing output. |
| Payments.CheckProof | spv/verifypayment.go:79-91 | Passes exactly when the proof is valid for the displayed hash of this transaction; a proof for another txid is told apart from an invalid one. |
| Payments.CheckFees | spv/verifypayment.go:30-56 | Passes exactly when all spent outputs are known and the quote accepts them. |
| Payments.EntryPassesMeans | spv/verifypayment.go:57-114 | Input by input: an entry passes exactly when it has inputs, its proof is valid for the displayed hash of its bytes or all its parents are known, and the last input for each known parent refers to one of its outputs. |
| Payments.AcceptedMeans | spv/verifypayment.go:20-57 | A payment is accepted exactly when every entry passes, its own among them, and with fees on the quote said yes to exactly the spent satoshis. |
| Payments.LastInputsAreLast | spv/verifypayment.go:62-69 | Of several inputs that spend from one parent, the last one is checked. |
| Payments.WalksAreAnchored | spv/verifypayment.go:57-114 | If a payment is accepted with proofs on, every walk backwards stays in the map, and one that cannot go on ends at a transaction whose proof verified for its own id. |
| Payments.WalksEnd | spv/verifypayment.go:57-114 | Under a rank every walk ends after at most rank + 1 transactions. |
| Payments.KeysAreIds | spv/ancestry_binary.go:69-81 | With a faithful decoder every key of the map is the id of its transaction and displays the hash of its bytes. |
| Payments.ProvenIsInBlock | spv/verifypayment.go:79-91 | A proof that holds against the root of a block shows that the displayed hash of this very transaction is a txid of the block, or breaks the hash function. |
| EndToEnd.VisitedStandsFor | spv/create_ancestry.go:23-63 | Everything in a created ancestry stands for a stored transaction of lower rank, with its stored proof or its own ancestry. |
| EndToEnd.VisitedIsConsistent | spv/create_ancestry.go:23-63 | Equal transactions in a created ancestry carry equal entries. |
| EndToEnd.AncestryIsEncodable | spv/ancestry_json.go:57-100 | A created ancestry can be written. |
| EndToEnd.CreatedAncestryIsAccepted | spv/verifypayment.go:11-116 | With honest stores, the created ancestry, flattened in any order, makes the verifier accept with proofs and scripts on and fees off. |
| EndToEnd.CreateFlattenAndVerify | spv/create_ancestry.go:12-66 | The same by running creation, flattening and verification one after the other. |
| Collectors.StepInv | spv/envelope.go:301-384 | Every step of every goroutine keeps the invariant of wait group, channels and maps. |
| Collectors.Progress | spv/envelope.go:301-384 | Until the main goroutine goes on, some goroutine can take a step. |
| Collectors.StepDecreases | spv/envelope.go:301-384 | Every step uses up one of finitely many. |
| Collectors.SequentialHolds | spv/envelope.go:315-336 | The sequential pass stores exactly the messages of the flakes, each under its key. |
| Collectors.DoneMeansComplete | spv/envelope.go:383-384 | Once `done` has been received the three maps are those of the sequential pass and the envelope is set. |
| Collectors.CollectorIsCorrect | spv/envelope.go:301-384 | Every interleaving ends after at most 5n + 4 steps, never deadlocks, and ends with the maps of the sequential pass. |
| CollectorPlaces.PlacesGiveKeys | spv/envelope.go:348-381 | Parsing and distinctness stated by places give those that the invariant needs. |
| CollectorPlaces.CollectorDelivers | spv/envelope.go:301-384 | After any interleaving the maps hold exactly the transactions of flakes 3k under their txids, the proofs of flakes 3k + 1 under the txid they prove, and the callbacks of flakes 3k + 2 under the txid of the first; the envelope is the transaction of flake 0. |
| CrunchyNuts.SerialiseInputs | spv/envelope.go:69-105 | A single-parent chain is written transaction by transaction with its responses, down to its proof. |
| CrunchyNuts.CrunchyNutBytes | spv/envelope.go:45-66 | The version and the chain of the envelope itself. |
| CrunchyNuts.ProofReturns | spv/envelope.go:153-200 | A proof comes back from its flake as it was exactly when its target type is "header" or "blockhash". |
| CrunchyNuts.RebuiltIsSame | spv/envelope.go:124-186 | What the parser makes of a chain is the chain itself exactly when only its last link has responses. |
| CrunchyNuts.LostChild | spv/envelope.go:143-147 | A child with responses and no proof is lost, and its responses are found with its proven parent. |
| CrunchyNuts.FirstOfChain | spv/envelope.go:124-152 | A chain starts with its transaction, and its responses and what follows them are left. |
| CrunchyNuts.NewInputs | spv/envelope.go:136-139 | A fresh empty envelope for every transaction that is spent. |
| CrunchyNuts.ParseTxFlake | spv/envelope.go:130-152 | A transaction flake fills the envelope, and with its responses, proof or inputs the rest of the chain is read to the end of the bytes. |
| CrunchyNuts.ParseInputs | spv/envelope.go:148-152 | The loop over the inputs rebuilds the one parent that is left, and changes nothing when nothing is left. |
| CrunchyNuts.ParseFlakes | spv/envelope.go:124-186 | The recursive parser makes of the chain ahead of its offset, or of the tail of a link, exactly what is stated, and uses up all bytes. |
| CrunchyNuts.NewCrunchyNutEnvelopeFromBytes | spv/envelope.go:108-120 | A version other than 1 is refused, and a fresh envelope is filled with the chain behind it. |
| CrunchyNuts.CrunchyNutRoundTrip | spv/envelope.go:45-186 | For a chain of any length, each transaction spending only its parent, down to one with a proof whose type lasts, the written envelope is rebuilt object by object exactly when only the link with the proof has responses. |

## Left out

- SHA-256, the transaction parser, the CompactSize integers of go-bt, the header chain and the stores are code
  outside this repository: the hash and the lookups are parameters, CompactSize is modelled as Bitcoin defines it.
- `math.Log2` on floats is an exact integer logarithm here, so a rounding error for tree sizes near 2^53 and above
  does not appear.
- Empty lists of leaves: both tree builders panic on them, so at least one leaf is required.
- `append` on a slice with spare capacity may write into the caller's bytes (merkleroot.go:36, merklepath.go:88);
  byte slices are values here.
- `getHashes` (merklebranches.go:11-19) indexes a slice of length 0 and panics on every non-empty template; the
  branches are modelled from the reversed hashes on.
- Bumps.SortByOffset: `sort.Slice` is modelled by a stable sort; for leaves with the same offset in one level the
  order in Go is unspecified, for distinct offsets `Bumps.SortIsUnique` makes the routine irrelevant.
- BUMP leaf offsets are never nil here; the JSON form could make them so.
- A declared number of BUMP leaves that Go cannot allocate panics there; the model reads leaf by leaf and reports
  the end of the bytes.
- The tests of the proof type and composite bits (spv/verifymerkleproof.go:82-88) compare a masked bit with 1 and
  never hold; they are not modelled, and nothing is claimed about those bits.
- ProofBinaries.ProofRoundTrip: is stated for at most 252 nodes, because the encoder writes the count as one byte
  and the parser reads a CompactSize; `ParsedIsInRange` covers all bytes.
- mAPI responses in ancestries: the writers put a count where the parser reads a length, so the round trips are
  stated without them; the writers themselves are modelled with them. In CrunchyNut envelopes they are included.
- `verifyInputOutputPair` is a stub that always holds, and the fee quote is a predicate on the transaction and the
  satoshis it spends; the satoshis are passed to it instead of being stored in the inputs.
- Payments.CheckEntry: claims an existing output only for the last input that spends from each parent, as the code
  keeps no other.
- CreateAncestries.CreateTxAncestry: asks for a rank on the stored transactions, without which the recursion of the
  code need not end.
- Collectors.CollectorIsCorrect: is stated for flakes that all parse, to distinct keys; otherwise a parser error is
  followed by a nil pointer and the order of arrival decides which message stays.
- Splitting the bytes into flakes, the reassembly loop and `searchParents` (spv/envelope.go:278-299 and 386-448):
  anchored transactions are not attached there and the loop need not end.
- CrunchyNuts.SerialiseInputs: claims nothing for several parents, where the code stops after the first parent
  without a proof. The writer works on values, the parser on objects.
- `NewAncestryJSONFromBytes` (spv/ancestry_tsc_json.go:28-56) stores the target type as proof type; it is not
  modelled.
- `MerklePath.Bytes` and its parser (BRC-71), JSON forms, block and header codecs apart from the Merkle root,
  difficulty, human-readable hashes, coinbase assembly and option setters would only add easy members.
