# Verified model of mst2-codec

This project models four components of the crate and proves their properties for all inputs, all stores and
all runs. SHA-256 is a parameter of every statement: an arbitrary function from byte strings to 32-byte digests.
A statement that needs collision resistance asks only that the finitely many byte strings it hashes do not collide;
no function can be injective on all byte strings.

- **The persistent radix binding index** (`Radix*.dfy`, `NodeStore.dfy`). The store is a class whose reads and
  insertions may fail at any call, before or after taking effect. A root digest denotes a canonical trie
  (`RadixGraph`); an update is proved against an edit of that trie (`RadixTree.Put`), and the trie is proved to be
  a map from paths to bindings that alone determines its digest. `Index.Update` is therefore a refinement of a map
  update, keeps every older root, shares all but the rewritten nodes with it (`RadixShare`), and is independent of history.
- **The MTP2 directory partition** (`Meta*.dfy`). The page codec is a bijection; `build` is total, stays within the page limits
  and commits to the whole directory; route descent and child verification agree with the tree it builds.
- **The chunk map and its Merkle tree** (`ChunkMap.dfy`, `Merkle.dfy`). The recursive root, the iterative prover,
  the independently derived shape and the iterative verifier coincide; verification is complete and sound.
- **The TreeFrame stream codec** (`Error*.dfy`, `Tree*.dfy`), identity encoding. Frames, payload tables, the JSON
  scanner and the stream loop are a parser and printer pair: accepted streams are canonical and printed streams parse back.

`Layout.dfy` states every storage and wire format in place, field by field.

Each loop of the source is a method proved equal to a recursive specification function (modules `RadixIndex`, `MetaOps`, `TreeOps`, class
`ErrorScan.JsonScan`, and the `Compute...` methods); the properties are lemmas about those functions.

## Main results

1. `RadixIndex.Index.Update` refines a map update on any store, keeps every stored node on success and on failure, writes nothing
   for a no-op and at most ancestors + 3 nodes otherwise, sharing all others with the old root, and cannot fail on a
   reliable store with room; `RadixGraph.RootDependsOnBindingsOnly` and `RadixEdit.SameOutcomeSameRoot` make the root
   independent of history, `RadixGraph.RootFixesBindings` makes it a commitment.
2. `RadixIndex.Index.GetBinding` and `LongestPrefix` answer from that map, with ancestors taken component-wise
   (`RadixKey.KeyPrefixIsAncestor`). Whatever the store holds, an answer is read off a complete descent of nodes that
   pass every check, and a failure has a broken or missing node to blame (`RadixChain`).
3. `MetaExact.BuildsExactlyInputs`, `LeafExactlyIfSmall` and `BuildMeans`: on which lists `build` succeeds, when it makes
   a leaf, and what a branch refers to; `MetaCommit.RootIdsAgreeIffEntriesDo`: root ids agree exactly when the directories do.
4. `MetaExact.RouteAnswers`, `MetaRoute.VerifyMeans` and `MetaRoute.ChainIsCanonical`: routes succeed exactly where the tree has
   them, acceptance of a received page is characterised on all inputs, and sender and receiver agree on every page.
5. `Merkle.ProofVerifies` and `Merkle.VerifySound`: honest proofs are accepted, and only they are;
   `Merkle.MerkleRootMeans` and `Merkle.VerifyMeans` say what is hashed and checked on any input.
6. `ChunkMap.ChunksPartitionFile`, `PagesPartitionChunks` and `RangeIsExact`: chunks and pages partition the file, ranges are exact.
7. `TreeStream.StreamIsItsParts`, `StreamIsCanonical`, `ParseOfPrintedStream` and `AcceptedIsResent`: which streams are accepted,
   and that parser and printer of whole streams are inverse, with the exact conditions.
8. `ErrorSchema.ParseIsSchema`: the scanner accepts exactly the closed schema, spelled without it; `ErrorJson.ParseOfPrint`: it
   inverts the printer through every escape class.

## Conventions

- Paths, names and texts are byte strings; `Utf8.Valid` is the well-formedness test of Table 3-7 of the Unicode Standard.
  A Rust `&str` is a byte string for which it holds; a path that is not UTF-8 is refused where the source cannot express it.
- Machine integers are naturals with their width written out: bounded types, checked additions, and `% U64_LIMIT` for casts.
- `CodecError` keeps the error class and drops its text.
- A node store's `reliable` constant says that no call fails without cause: a stored node is served, and an insertion is refused only
  where other bytes lie under the digest. `Room` says, before a call, that no such refusal can happen; `RadixShare.RoomUnlessCollision`
  derives it for every store whose nodes lie under their hashes, which updates preserve, unless byte strings collide.
- `Writes` collects the tries that an edit needs to store (room for them is enough), and `Ancestors` counts the nodes above the one it changes.
- The ghost parameter `claim` of `update`, `get` and `longest_prefix` is a trie the caller has in mind; `Traced` relates it to
  the root and the store, which may lack or corrupt any of its nodes. The ghost results `vs` are the nodes passed and `ids` the digests saved.
- `EmptyRootUnused` says that no non-empty node is stored under the digest of the empty index. `load` answers that digest
  without reading (src/namespace/radix/index.rs:54-72), so a node colliding with it could not be read back.
- `sid` is the stream id and `seen` in `ParseFrom` the number of frames before.

## Where a promise needs a condition

- A page decodes to itself only when its unencoded entry fields are zero (`MetaDecode.PageCodec`, both ways;
  `MetaDecode.UnencodedFieldIsLost` gives an input). Re-encoding an accepted buffer needs no condition.
- The payload encoders check neither repeated ids, nor page size, nor a zero stream id, while the parser does:
  `TreeFrame.ParseOfEncode` states when encode-then-parse returns the frame, both ways, and
  `TreeFrame.RepeatedPageIsRefused` gives an input.
- An ERROR body may be written in many ways, so only its meaning is kept; its canonical printing may be longer than
  what was received (`TreeStream.AcceptedIsResent`, both ways; `TreeStream.ReceivedButUnsendable` gives an input).

## Model

| member | source | states |
|---|---|---|
| `RadixKey.ComputeKey` | src/namespace/radix.rs:142-156 | the in-place slash-to-NUL loop computes the specified key, or the path error |
| `RadixKey.EncodeKeyIsKeyOf` | src/namespace/radix.rs:142-156 | an accepted path's key is its valid components, each ended by NUL |
| `RadixKey.KeyCodecInverse` | src/namespace/radix.rs:142-182 | `encode_key` and `decode_key` are inverse bijections between canonical paths and accepted keys |
| `RadixKey.KeyPrefixIsAncestor` | src/namespace/radix.rs:142-156 | one key is a byte prefix of another exactly when its path is a component-wise ancestor-or-self |
| `RadixKey.EncodeKeyInjective` | src/namespace/radix.rs:142-156 | different accepted paths have different keys |
| `RadixKey.KeyBounds` | src/namespace/radix.rs:142-182 | an encoded key stays within 4096 bytes and decodes to its path |
| `RadixKey.EncodeKeyMeans` | src/namespace/radix.rs:142-156 | the accepted paths are exactly those of plain names within 4096 bytes, and the key has each name with a NUL behind it |
| `Names.NameMeans` | src/lib.rs:101-119 | a name is accepted exactly when it has 1 to 255 bytes of valid UTF-8, no NUL or slash, and is no dot component |
| `Names.PathMeans` | src/namespace.rs:287-310 | an absolute path is accepted exactly when it joins plain names by slashes within 4096 bytes |
| `Utf8.ValidMeans` | src/lib.rs:108 | valid text is exactly a sequence of shortest encodings of Unicode scalar values |
| `Base.LeByte` | src/lib.rs:69-97 | integers stand least significant byte first |
| `RadixNode.CanonicalMeans` | src/namespace/radix.rs:32-57 | the constructor accepts exactly short labels, strictly ascending edges, and nodes that are bound, branch, or are the empty root |
| `Layout.NodeInPlace` | src/namespace/radix.rs:80-94 | every field of a stored node at its offset |
| `RadixNode.Encode` | src/namespace/radix.rs:80-94 | the buffer loop writes the node format: domain, label, binding flag, ascending child table |
| `RadixNode.Decode` | src/namespace/radix.rs:96-128 | the cursor loop accepts exactly what the specification of the format accepts, with the same error |
| `RadixNode.DecodeOfEncode` | src/namespace/radix.rs:80-128 | every canonical node decodes back to itself |
| `RadixNode.EncodeOfDecode` | src/namespace/radix.rs:80-128 | every accepted buffer re-encodes to the same bytes, and only canonical nodes are accepted |
| `RadixNode.NodeBytesInjective` | src/namespace/radix.rs:80-94 | canonical nodes with equal bytes are equal |
| `RadixNode.NodeFits` | src/namespace/radix.rs:32-57 | a canonical node never exceeds 16384 bytes, so the size check cannot fail on it |
| `RadixNode.AscendingFanout` | src/namespace/radix.rs:32-57 | strictly ascending edges bound the fan-out by 256 |
| `RadixTree.FindAfterSet` | src/namespace/radix/index.rs:239-249 | `set_child` changes the child under one edge and no other |
| `RadixTree.SetChildAscends` | src/namespace/radix/index.rs:239-249 | inserting, replacing or removing a child keeps the edges strictly ascending |
| `RadixTree.PutMeans` | src/namespace/radix/index.rs:100-176 | splitting, inserting, overwriting, deleting and collapsing change the binding of exactly one key |
| `RadixTree.PutKeeps` | src/namespace/radix/index.rs:75-176 | every edit of a canonical trie is canonical again and keeps all keys decodable and within the limit |
| `RadixTree.PutRootMeans` | src/namespace/radix/index.rs:100-176 | the edited root is canonical and its key map is the old one with one key set or removed |
| `RadixTree.PutRootPathMap` | src/namespace/radix/index.rs:100-176 | the same for the map from paths: the path is set, or removed for `None` |
| `RadixTree.PutNothing` | src/namespace/radix/index.rs:100-176 | an edit that changes no binding leaves the very same trie |
| `RadixTree.SameBindingsSameTree` | src/namespace/radix/index.rs:75-176 | canonical form: tries with the same bindings are the same trie |
| `RadixTree.SamePathsSameTree` | src/namespace/radix/index.rs:75-176 | the same, from equal path maps |
| `RadixTree.LabelIsLongest` | src/namespace/radix.rs:32-57 | compression is complete: a node's label holds every byte its keys share |
| `RadixTree.BoundKeysMeans` | src/namespace/radix/index.rs:178-180 | the finite key set of a trie is exactly the set of bound keys |
| `RadixGraph.DenotedTreeUnique` | src/namespace/radix/index.rs:54-72 | a digest in a store denotes at most one trie |
| `RadixGraph.RootsPersist` | src/namespace/radix/index.rs:40-43 | appending to the store keeps every well-formed root and its map |
| `RadixGraph.RootDependsOnBindingsOnly` | src/namespace/radix/index.rs:75-176 | history independence: equal maps have equal root digests, in any two stores |
| `RadixGraph.NoBindingsIsEmptyRoot` | src/namespace/radix.rs:136-138 | the root with no bindings, and no other, is `empty_root` |
| `RadixGraph.EmptyRootIsWellFormed` | src/namespace/radix.rs:136-138 | `empty_root` is well-formed in every store, with the empty map |
| `RadixGraph.RootCommits` | src/namespace/radix.rs:131-133 | without a collision among their nodes, equal node ids mean equal tries |
| `RadixGraph.RootFixesBindings` | src/namespace/radix.rs:131-133 | without a collision, a root digest fixes its whole map whatever store it is read from |
| `Store.NodeStore.Read` | src/namespace/radix/index.rs:41 | a read serves the stored bytes or fails, and changes nothing |
| `Store.NodeStore.Insert` | src/namespace/radix/index.rs:42 | an insertion appends or fails, before or after storing, and never rewrites a node; a reliable store refuses only other bytes under a stored digest |
| `RadixIndex.Index.Load` | src/namespace/radix/index.rs:54-72 | on any store the answer is that of the checks on the stored bytes, in their order; an accepted node has the hash asked for, is canonical, starts with its edge and keeps keys in range; the empty root is never read |
| `RadixIndex.Index.Compacted` | src/namespace/radix/index.rs:75-87 | on any store an edited node is dropped, merged with its only child, which must load, or kept as it is |
| `RadixIndex.Index.Save` | src/namespace/radix/index.rs:75-95 | on any store what is left is canonical, in its place and stored under its hash; for a node that stands for a trie nothing but the node of the compressed trie is added, and a reliable store with room for it cannot fail |
| `RadixIndex.Index.Descend` | src/namespace/radix/index.rs:106-160 | on any store success is a complete descent with its bottom node and the ancestors stacked, within key length + 1 reads; failure has a stored node that breaks a check, or a node that is not there |
| `RadixIndex.Index.SplitLabel` | src/namespace/radix/index.rs:120-144 | cutting a label saves the lower half, the leaf if the key goes on, and their parent, on any store; over a trie these are exactly the nodes of the edited subtree to be written |
| `RadixIndex.Index.AttachLeaf` | src/namespace/radix/index.rs:160-169 | a missing child becomes a saved leaf with the rest of the key, under the saved parent, on any store; over a trie this is the edited subtree |
| `RadixIndex.Index.EditBottom` | src/namespace/radix/index.rs:115-169 | nothing is written exactly when the node already has the binding asked for at the key; otherwise at most three nodes, which over a trie are those of the edited subtree |
| `RadixIndex.Index.Propagate` | src/namespace/radix/index.rs:171-176 | on any store each ancestor is saved once, bottom-up, with the reference to the one below replaced; over a trie the result is the rebuilt trie and nothing else is added |
| `RadixIndex.Index.Rewrite` | src/namespace/radix/index.rs:115-176 | the edit at the bottom and the way up, together: nothing exactly when the binding is there, else the edited trie and no other nodes |
| `RadixIndex.Index.EditKey` | src/namespace/radix/index.rs:106-176 | on any store an edit needs a complete descent, fails with a node to blame, and rewrites exactly the nodes passed |
| `RadixIndex.Index.Update` | src/namespace/radix/index.rs:97-176 | on success over a held root the new root is well-formed with exactly one path set or removed; nothing stored is ever lost or changed, even on failure; a no-op writes nothing; at most ancestors + 3 insertions, and as many nodes of the new root that are not nodes of the old one; no error on a reliable store with room for the nodes written; on any store no success without a complete descent, whose nodes are rewritten; on a partial or corrupt store the new root is that of the edited trie, and only its nodes are added |
| `RadixIndex.Index.DeleteReinsert` | src/namespace/radix/index.rs:97-176 | two updates, deleting a bound path and binding it again, return to the very same root |
| `RadixIndex.Index.Replay` | src/namespace/radix/index.rs:100-176 | a run of updates from `empty_root` has the map its edits spell out, and all earlier roots keep theirs |
| `RadixIndex.Index.Walk` | src/namespace/radix/index.rs:190-221 | on any store an answer is read off a complete descent of loaded nodes and is its last bound node, or the bound end itself for `get`; a failure has a broken or missing node to blame; the walk ends within key length + 1 reads, answers from the map of a held root, and from a partial or corrupt store never wrongly about a trie whose digest the root is |
| `RadixIndex.Index.GetBinding` | src/namespace/radix/index.rs:178-180 | `get` returns the binding at the end of the complete descent, whatever is stored; over a held root exactly the map value, and never a wrong one from an untrusted store |
| `RadixIndex.Index.LongestPrefix` | src/namespace/radix/index.rs:182-188 | the answer is the last bound node of the complete descent, whatever is stored; over a held root the bound ancestor-or-self with the most components, or `None` exactly when there is none |
| `RadixChain.ChainUnique` | src/namespace/radix/index.rs:190-221 | a root and a key have at most one complete descent |
| `RadixChain.ChainNotBroken` | src/namespace/radix/index.rs:54-72 | where a complete descent exists, no descent meets a broken or a missing node, so a reliable store must answer |
| `RadixWalk.HeldChain` | src/namespace/radix/index.rs:190-221 | over a held root every key has a complete descent |
| `RadixWalk.ChainTellsTruth` | src/namespace/radix/index.rs:190-221 | what a complete descent answers is right for every trie whose digest the root is |
| `RadixLink.FetchMeans` | src/namespace/radix/index.rs:54-72 | the checks of a load pass for exactly the canonical node stored under its hash, in its place |
| `RadixWalk.LongestIsAncestor` | src/namespace/radix/index.rs:190-221 | the longest bound byte prefix of the key is the longest bound component-wise ancestor of the path |
| `RadixEdit.SameOutcomeSameRoot` | src/namespace/radix/index.rs:100-176 | two runs of edits with the same final map end in the same root, and in `empty_root` exactly when the map is empty |
| `RadixEdit.DeleteReinsertOutcome` | src/namespace/radix/index.rs:97-176 | a history continued by deleting a bound path and binding it again has the same outcome map |
| `RadixShare.WritesBound` | src/namespace/radix/index.rs:97-176 | an edit stores at most ancestors + 3 tries |
| `RadixShare.PutShares` | src/namespace/radix/index.rs:97-176 | the edited trie is made of subtrees of the old one and of the tries stored, through cuts, leaves and merges |
| `RadixShare.EditSharesNodes` | src/namespace/radix/index.rs:97-176 | all but ancestors + 3 nodes of the new root are nodes of the old one, under the digests they had |
| `RadixShare.ReachableIsLeast` | src/namespace/radix/index.rs:45-72 | the nodes counted are the least set with the root that is closed under the references of stored nodes |
| `RadixShare.RoomUnlessCollision` | src/namespace/radix/index.rs:75-95 | in a store where every node lies under its hash, there is room for the nodes written unless two of the byte strings involved collide |
| `RadixLink.DenotedIsTheTraced` | src/namespace/radix/index.rs:54-72 | where a root is held, the trie it denotes is the only one a reader can be led to |
| `RadixLink.GenuineUnlessCollision` | src/namespace/radix/index.rs:54-72 | stored bytes can mislead a reader about a trie only by colliding with one of its nodes |
| `RadixEdit.EditIsHeld` | src/namespace/radix/index.rs:97-176 | the edited trie is held as soon as the nodes of the edit are stored beside those of the old one |
| `Merkle.LargestPow2Below` | src/chunkmap.rs:252-259 | the 64-bit halving loop finds the power of two with k < n <= 2k, without overflow |
| `Merkle.Pow2BelowUnique` | src/chunkmap.rs:252-259 | there is only one such power of two |
| `Merkle.ComputeProofShape` | src/chunkmap.rs:286-309 | the halving loop yields the sides and counts of the recursive split, leaf first |
| `Merkle.LeafProof` | src/chunkmap.rs:348-380 | the iterative prover yields the proof read off the recursive tree, or refuses an index out of range |
| `Merkle.VerifyLeaf` | src/chunkmap.rs:314-344 | the iterative verifier decides exactly the specified climb, with the same errors |
| `Merkle.ShapeCounts` | src/chunkmap.rs:286-309 | left sibling counts sum to the index, and all counts plus one to the number of leaves |
| `Merkle.ShapesDiffer` | src/chunkmap.rs:286-309 | different leaf positions have different proof shapes |
| `Merkle.ShapeLength` | src/chunkmap.rs:286-309 | a proof has at most ceil(log2 n) steps |
| `Merkle.ProofFollowsShape` | src/chunkmap.rs:286-380 | every proof has exactly the sides and counts of the independently derived shape |
| `Merkle.ProofClimbs` | src/chunkmap.rs:270-380 | climbing a leaf's own proof reaches the recursively built root |
| `Merkle.ProofVerifies` | src/chunkmap.rs:262-380 | completeness: the verifier accepts every honest proof at every position |
| `Merkle.ClimbSound` | src/chunkmap.rs:314-344 | without a collision, a climb that reaches the root started at the right leaf and used the honest siblings |
| `Merkle.VerifySound` | src/chunkmap.rs:262-380 | soundness: an accepted proof is for the leaf at that index and equals the honest proof step for step |
| `Merkle.BranchInPlace` | src/chunkmap.rs:239-249 | the 102 hashed bytes of an inner node, field by field, and no other bytes have these fields |
| `Merkle.MerkleRootMeans` | src/chunkmap.rs:262-283 | no leaves have no root; otherwise the root is the one digest over the two parts, split at the largest power of two below the count |
| `Merkle.VerifyMeans` | src/chunkmap.rs:314-344 | whatever proof and root are presented, acceptance means the sides and counts of the position, and node digests that lead from the leaf to the root |
| `ChunkMap.MapCodec` | src/chunkmap.rs:57-145 | exactly the encodings of constructible maps are accepted, each as the map it encodes |
| `ChunkMap.ComputeLeafBytes` | src/chunkmap.rs:175-188 | the leaf writer appends header and digests as specified |
| `ChunkMap.ReadLeaf` | src/chunkmap.rs:190-218 | the leaf reader accepts exactly what the format specifies, with the same errors |
| `ChunkMap.LeafCodec` | src/chunkmap.rs:173-218 | the leaf codec is a bijection between accepted buffers and encodable leaves |
| `Layout.ChunkLeafInPlace` | src/chunkmap.rs:175-188 | exactly 1 to 256 digests encode, each at its offset behind the header |
| `Layout.MapInPlace` | src/chunkmap.rs:79-92 | every field of a descriptor at its offset |
| `ChunkMap.NewMeans` | src/chunkmap.rs:57-77 | empty files are refused, and the counts are the least that cover the file and the chunks |
| `ChunkMap.ChunksPartitionFile` | src/chunkmap.rs:154-170 | chunk lengths are 1..1 MiB inside the map and an index past it is refused; no subtraction wraps, and the lengths sum to the file size |
| `ChunkMap.PagesPartitionChunks` | src/chunkmap.rs:225-235 | expected page counts are 1..256 and sum to the chunk count |
| `ChunkMap.RangeIsExact` | src/chunkmap.rs:384-401 | a range is refused exactly when empty or past the end; otherwise it is the chunks that touch the clamped bytes, no more and no fewer, inside the map |
| `MetaEntry.EntryReadsBack` | src/metapage.rs:101-183 | a valid normalised entry decodes to itself wherever it stands in a buffer |
| `MetaEntry.EntryWritesBack` | src/metapage.rs:101-183 | a decoded entry is valid, normalised, and writes the bytes it was read from |
| `MetaEntry.EntryBytesInjective` | src/metapage.rs:101-114 | entry bytes fix the entry up to its unencoded fields |
| `MetaEntry.ValidEntryMeans` | src/metapage.rs:116-130 | an entry is valid exactly with a plain name and, for a directory, a child root that is not all zero |
| `MetaPage.EncodePageMeans` | src/metapage.rs:371-461 | encoding succeeds exactly for well-built pages (order, limits, checked sum, terminal, size) and yields their bytes |
| `MetaDecode.EncodeOfDecode` | src/metapage.rs:216-461 | every accepted page re-encodes to the same bytes, with the announced total |
| `MetaDecode.DecodeOfEncode` | src/metapage.rs:216-461 | every normalised page that encodes decodes to itself with its total |
| `MetaDecode.PageCodec` | src/metapage.rs:216-461 | the page codec is a bijection between accepted buffers and encodable normalised pages |
| `MetaDecode.UnencodedFieldIsLost` | src/metapage.rs:101-183 | a directory with a non-zero size encodes and does not decode to itself, so the normal form is needed |
| `MetaDecode.PageBytesInjective` | src/metapage.rs:371-461 | page bytes fix the page up to unencoded entry fields |
| `MetaDecode.AcceptedNamesArePlain` | src/metapage.rs:216-369 | every name of an accepted page is plain |
| `Layout.PageInPlace` | src/metapage.rs:371-461 | every field of a page at its offset: header, entries, prefix, terminal and children |
| `MetaBuild.ComputeLcp` | src/metapage.rs:548-561 | the shrinking loop computes the specified common prefix |
| `MetaBuild.LcpMeans` | src/metapage.rs:548-561 | it is a prefix of all names and extends every other common prefix |
| `MetaPartition.SplitMeans` | src/metapage.rs:651-679 | grouping keeps every entry once, in order, under its next byte, with at least two parts |
| `MetaPartition.SplitHasTwoParts` | src/metapage.rs:651-679 | the branch with fewer than two groups is never reached on ascending names |
| `MetaPartition.BranchIsWellBuilt` | src/metapage.rs:640-693 | the branch over built children passes every encoder check, and its total is the number of entries |
| `MetaPartition.BuildTotal` | src/metapage.rs:623-693 | `build` is total on ascending valid lists of fewer than 2^63 entries, and counts them all |
| `MetaOps.GroupByNextByte` | src/metapage.rs:655-669 | the grouping loop over `groups` equals the specified fold, with its error |
| `MetaOps.BuildTree` | src/metapage.rs:623-693 | the recursive builder with its loops computes the specified tree |
| `MetaOps.Encode` | src/metapage.rs:371-461 | the encoder's loops compute the specified bytes or error |
| `MetaOps.Decode` | src/metapage.rs:216-369 | the decoder's loops accept exactly what is specified, with the same error |
| `MetaOps.RoutePagesOf` | src/metapage.rs:488-545 | the descent loop over `current` and the route yields the specified pages or error |
| `MetaCommit.PagesFit` | src/metapage.rs:623-693 | every page of a built tree is within 16384 bytes and decodes |
| `MetaExact.LeafExactlyIfSmall` | src/metapage.rs:637-650 | `build` makes one leaf exactly when the list has at most 128 entries and 20 plus their lengths is at most 16384, and a branch otherwise |
| `MetaExact.BuildMeans` | src/metapage.rs:651-693 | a branch has the longest common prefix, the entry of that name, and one child for each next byte, which refers to the page built from exactly the entries below it |
| `MetaExact.BuildsExactlyInputs` | src/metapage.rs:623-693 | `build` succeeds exactly on valid, strictly ascending lists of at most 2^63 - 1 entries |
| `Base.LessMeans` | src/metapage.rs:626-636 | names are ordered by the first byte that differs, a proper prefix first |
| `MetaCommit.BuildCommits` | src/metapage.rs:623-693 | without a collision among their pages, equal root page ids mean the same normalised entries |
| `MetaCommit.BuildIgnoresUnencoded` | src/metapage.rs:623-693 | the built tree does not depend on unencoded fields |
| `MetaCommit.RootIdsAgreeIffEntriesDo` | src/metapage.rs:207-209 | directory commitment, both ways: root ids agree exactly when the normalised entries do |
| `MetaRoute.PagesAlongRouteMeans` | src/metapage.rs:488-545 | a route succeeds exactly when it exists in the canonical tree, never fails with a digest mismatch, and returns the canonical pages |
| `MetaRoute.SelectFindsGroup` | src/metapage.rs:510-535 | re-selecting entries by prefix and label gives exactly the group the builder made |
| `MetaRoute.StepIsAccepted` | src/metapage.rs:571-619 | a built child is accepted under its parent and label |
| `MetaRoute.RoutePagesVerify` | src/metapage.rs:488-619 | every adjacent pair of returned pages is accepted for its label |
| `MetaRoute.ChainIsCanonical` | src/metapage.rs:488-619 | end to end: without a collision a receiver that knows the root id accepts exactly the canonical pages of exactly the existing routes |
| `MetaRoute.AcceptedIsCanonical` | src/metapage.rs:571-619 | without a collision, a child accepted under a built parent is the canonical page of that label's entries |
| `MetaRoute.VerifyMeans` | src/metapage.rs:571-619 | whatever the two pages are, acceptance means a branch with a child under the label that has the id and the count of the received page, whose names or prefix start with the prefix and label |
| `MetaExact.RouteAnswers` | src/metapage.rs:488-545 | on any list a route is answered exactly when the list builds and each label leads on, with the pages built from the entries below each prefix and label |
| `ErrorJson.ComputeEscape` | src/treeframe.rs:789-805 | the printing loop yields the specified escaped text |
| `ErrorJson.EscapeValid` | src/treeframe.rs:789-805 | escaping text gives text |
| `ErrorJson.ScanEscapedByte` | src/treeframe.rs:480-532 | each printed byte is scanned back through its escape class and never ends the string |
| `ErrorJson.ScanPrintedString` | src/treeframe.rs:480-532 | a printed string is scanned back, up to exactly its closing quote |
| `ErrorSchema.ParseIsSchema` | src/treeframe.rs:388-440 | accepted are exactly the bodies of the closed schema: three members in any order, each key once, white space between tokens, texts spelled by the escape table |
| `ErrorSchema.DecodeErrorMeans` | src/treeframe.rs:380-386 | an ERROR payload is accepted exactly with at most 4096 bytes of valid UTF-8 and a body of the closed schema |
| `ErrorSchema.StringScanned` | src/treeframe.rs:480-532 | a quoted text is scanned to what it spells |
| `ErrorSchema.StringCut` | src/treeframe.rs:480-532 | what a string is scanned to, its text spells |
| `ErrorJson.ParseOfPrint` | src/treeframe.rs:389-805 | parsing the printed object returns the same code, flag and request id |
| `ErrorJson.DecodeErrorOfPrint` | src/treeframe.rs:380-386 | an ERROR payload is decoded to its triple exactly when the printed object fits 4096 bytes |
| `ErrorJson.AcceptedButTooLong` | src/treeframe.rs:380-386 | a body of a thousand backspace escapes is accepted, and its triple prints beyond the 4096-byte limit |
| `ErrorJson.DecodedIsText` | src/treeframe.rs:380-440 | an accepted payload holds valid text, whatever escapes it was written with |
| `ErrorScan.JsonScan.SkipSpace` | src/treeframe.rs:467-471 | advances to the first byte that is not white space |
| `ErrorScan.JsonScan.Take` | src/treeframe.rs:472-479 | advances by one exactly when the byte is there |
| `ErrorScan.JsonScan.String` | src/treeframe.rs:480-532 | the scanning loop reads the specified string and position, or gives its error |
| `ErrorScan.JsonScan.Boolean` | src/treeframe.rs:533-544 | reads the specified flag and position |
| `ErrorScan.ParseErrorJson` | src/treeframe.rs:389-444 | the member loop parses exactly what is specified: three keys once each, in any order, nothing after |
| `TreePayload.MetaCodec` | src/treeframe.rs:228-276 | with the encoder: exactly the encodings of page lists with true ids, distinct, each page at most 16 KiB, are accepted |
| `TreePayload.ObjectCodec` | src/treeframe.rs:278-335 | with the encoder: exactly the encodings of object lists with true, distinct ids and concatenated offsets are accepted |
| `TreePayload.EncodeTableMeans` | src/treeframe.rs:667-681 | the running 32-bit offset never overflows within the limits, and the table announces the data layout |
| `TreePayload.ChunkCodec` | src/treeframe.rs:337-363 | with the encoder: exactly the encodings of chunks of at most 1 MiB are accepted |
| `TreePayload.EndCodec` | src/treeframe.rs:365-378 | with the encoder: the END body is a bijection on 48-byte payloads |
| `Layout.MetaInPlace` | src/treeframe.rs:646-656 | exactly 1 to 64 pages with true ids within 1 MiB encode, each field at its offset |
| `Layout.ObjectInPlace` | src/treeframe.rs:700-717 | exactly 1 to 128 objects of at most 256 KiB with true ids within 1 MiB encode, each table entry and its data at their offsets |
| `Layout.ChunkAndEndInPlace` | src/treeframe.rs:744-766 | chunks of at most 1 MiB encode, and every field of CHUNK and END payloads stands at its offset |
| `TreeFrame.ParseOfBytes` | src/treeframe.rs:94-183 | identity frame bytes followed by anything are parsed by their payload alone |
| `TreeFrame.BytesOfParse` | src/treeframe.rs:94-183 | accepted bytes are an identity header of the right kind, limit, id and digest around their payload |
| `TreeFrame.ParseIgnoresRest` | src/treeframe.rs:94-183 | parsing looks at no byte after the length it reports |
| `TreeFrame.AcceptedFrameIsCanonical` | src/treeframe.rs:94-183 | an accepted frame other than ERROR re-encodes to the bytes it came from |
| `TreeFrame.ParseOfEncode` | src/treeframe.rs:552-787 | encode then parse returns the frame exactly when the stream id is non-zero, ids are distinct and META pages are at most 16 KiB |
| `TreeFrame.RepeatedPageIsRefused` | src/treeframe.rs:615-635 | the encoder accepts a repeated page that the receiver refuses |
| `Layout.ParseFrameMeans` | src/treeframe.rs:94-183 | exactly which buffers start with which frame, field by field, ERROR bodies by the closed schema |
| `TreeOps.EncodeMetaPayload` | src/treeframe.rs:615-635 | the page loop writes the specified payload or gives its error |
| `TreeOps.EncodeObjectPayload` | src/treeframe.rs:659-689 | the table loop and the data loop write the specified payload or give its error |
| `TreeOps.Encode` | src/treeframe.rs:615-787 | the five encoders frame their payloads as specified |
| `TreeOps.DecodeMetaPayload` | src/treeframe.rs:228-276 | the cursor and `seen` loop accepts exactly what is specified, with the same error |
| `TreeOps.DecodeObjectPayload` | src/treeframe.rs:278-335 | the table loop accepts exactly what is specified, with the same error |
| `TreeOps.Parse` | src/treeframe.rs:94-183 | the header checks, in the source's order, and the payload dispatch parse exactly as specified |
| `TreeOps.ParseStream` | src/treeframe.rs:188-226 | the loop over `off` parses exactly as specified |
| `TreeStream.AcceptedEndsOnce` | src/treeframe.rs:188-226 | every accepted stream has exactly one terminator, in last position |
| `TreeStream.StreamIsItsParts` | src/treeframe.rs:188-226 | every stream, whatever ends it: accepted exactly when it is cut into whole frames under one stream id, at positions from 0, with the one terminator last |
| `TreeStream.AcceptedIsEncoded` | src/treeframe.rs:188-226 | without ERROR frames, re-encoding frame i under the shared non-zero stream id and sequence i gives exactly the input |
| `TreeStream.ParseOfPrintedStream` | src/treeframe.rs:188-226 | a list of receivable frames with one final terminator parses back to exactly that list |
| `TreeStream.StreamIsCanonical` | src/treeframe.rs:188-226 | without ERROR frames the accepted streams are exactly the printed ones |
| `TreeStream.AcceptedIsResent` | src/treeframe.rs:188-226 | an accepted stream can be sent on exactly when its ERROR body, printed again, fits 4096 bytes, and is then received unchanged |
| `TreeStream.ReceivedButUnsendable` | src/treeframe.rs:188-226 | an accepted one-frame ERROR stream whose frame cannot be encoded again under any stream id |

## Left out

- SHA-256 itself (`src/lib.rs`): a parameter.
- zstd frames (`src/zstd1.rs` and the feature paths of `src/treeframe.rs`): a compressed frame is refused as in a build without the feature.
- The MSD2 descriptor and the source, binding and view manifests: flat fixed-order codecs that would only add easy round trips.
- Durability, transactions, root publication and garbage collection of node stores: declared external by the crate.
- Error texts, `Display`, vector capacities, file mode bits, fixtures and request bodies.
- Hash values of chunk maps and chunk leaves (`map_id`, `leaf_hash`): one call of SHA-256 over the modelled bytes.
- `set_child` is a function on the child list; the library's binary search is the function `Position`, specified by order, and the in-place vector edit is a reassignment.
- `update` is one method in the source; here its descent, its edit at the bottom and its way up are methods of the same class, as are the two halves of `save`.
- RadixIndex.Index.Walk: the error return for a loaded node whose key does not decode is left out, because the check in `load` excludes it.
- `JsonScan` scans bytes; `json_string` iterates over characters, and since bytes of multi-byte characters stand for themselves the model escapes byte by byte.
- `pages_along_route` and `verify_received_child` receive pages as byte strings; fetching them is the caller's.
- The frame counter `expect_seq` is unbounded here: a wrap would need 2^64 frames of 64 bytes in one buffer.
- Merkle.VerifySound: assumes no collision among the hashes of the tree and of the climb, not global injectivity.
