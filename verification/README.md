# Accumulate: ledgers, Merkle proofs, validators, signatures and fees in Dafny

Accumulate is a network of partitions. Each partition keeps its accounts in a tree of hashes, proves its
entries to the others with Merkle receipts, and exchanges numbered messages with them. This project
models the parts of the node where that is decided and proves what they promise:

- **Merkle chains** (`merkle_tree`, `merkle_soundness`, `merkle_state`, `merkle_manager`, `merkle_receipt`,
  `merkle_list`, `merkle_slots`, `receipt_list`).
  The binary-counter state, the chain manager that stores a state only at mark points, and the receipt
  builder that walks the chain column by column are measured against the Merkle tree hash and audit path
  of section 2.1 of RFC 6962 (without its domain separation bytes). Every receipt that is built is exactly
  the audit path. Conversely, unless the strings hashed by a receipt and by a tree of 32-byte hashes give away
  a collision, a receipt with a start of 32 bytes reaches the root exactly if it follows the tree, from an
  element, from an inner node, or from below an element. It is that of an element exactly if, besides, its
  turns end where a tree of that size has a leaf. Likewise, lists with one root have one tree down to their
  leaves, and are equal exactly if they are equally long. A receipt list, whatever state it brings along, is a
  slice of the chain it is anchored in exactly if the slots of the state are those of its count and the
  lengths add up.
- **Binary Patricia Tree** (`bpt`, `bpt_nodekey`, `bpt_insert`, `bpt_update`, `bpt_receipt`, `bpt_state`). The
  tree is a function of the map it holds, whatever the order of inserts and overwrites. Batched rehashing works on a
  map by node key, and node keys are blank at height 255. With at most one pair of keys that differ in the
  last bit only, every update gives the hash of the whole tree. In general it gives the hash of the tree with
  the hashes put in that parents last used for nodes that were left out. Unless hashes clash, root hash and
  receipts are right exactly if those hashes are; for the first update that means at most one such pair, and
  receipts of keys in no pair that was left out.
- **Exchange ledger** (`ledger`, `partitions`). The sliding window of message ids refines a plain
  first-write-wins map over every run, messages may arrive in any order, the id that is processed next is
  the first one received for the next number, and partitions do not interfere, not even in whether the
  executor panics.
- **Sorted lists that stand for maps** (`order`, `sortutil`, `network_def`, `status`, `signers`,
  `key_page`, `urls`). Validators, transaction signers and key page entries stay sorted over every run,
  and every binary search answers like the map or the scan it replaces.
- **Signature trees** (`signature`, `signature_objects`). Flattening, metadata, initiators, signing and the
  initiation test, on values and, where the source works on shared objects, on objects.
- **Codecs and arithmetic** (`factom`, `fees`, `format`, `decimal`, `lite_address`, `utf8`, `account_path`).

Hash functions, case folding and Unicode classes are parameters about which nothing is assumed, except
that checksums and Merkle soundness need results of 32 bytes (`HashesTo32`, `Gives32`). No hash function is
taken to be free of collisions: `Collide`, `NoClash`, `NoClashOnWay`, `NoneLooksNew`, `ApartFromNew` and
`NoAccident` speak only of the strings that the objects at hand hash. Objects that the source updates in place are classes. Where a
class has a ghost `view` or `contents`, that is the abstract map its lists stand for.

## Where the code does not meet its promise

Each point has the exact condition, and an input where it fails unless the condition itself names one.

- `Receipt.Validate` tells neither leaves from inner nodes nor lengths. A receipt that starts at an inner node,
  or at two elements glued together, reaches the root, and no hash has to be broken for that. It is a receipt
  of an element exactly if its start has 32 bytes and its turns end at a leaf of a tree of that size; a caller
  who does not know the size can rely on a start that is the hash of a string of another length than two
  hashes (`OnlyLeavesAreProved`, `PreimageProvesLeaf`, `InnerNodeIsAccepted`, `LongStartIsAccepted`).
- So `ReceiptList.Validate` accepts elements that were never in the chain: an inner node can stand for the
  leaves under it, both in the elements and in the slots of the state, and state and elements together can be
  below an element of the chain. State and elements are the chain up to the anchor exactly if the slots are
  those of the count, and count and number of elements add up to the length of the chain (`ValidListIsSlice`).
  That holds for every state, also one read from the wire, whose slots can differ from the count where a hash
  is empty (`ReceivedShape`). Without the length, a caller can rely on elements that are hashes of strings of
  another length than two hashes (`PreimageIsInChain`, `PreimagesEndChain`, `ListOfPreimagesIsSlice`). Inputs:
  `InnerNodeListIsAccepted`, `WrongSlotsAreAccepted`, `ElementBelowIsAccepted`.
- Chains of different lengths, and chains of hashes that are not 32 bytes long, can share a root
  (`RootsExactly`, `RootDeterminesLeaves`, `InnerNodeAsLeaf`, `OddSizesShareRoot`).
- All tree nodes of height 255 have the blank node key, so marking one dirty displaces another. With two
  pairs of keys that differ in the last bit only, the root hash does not depend on the values of the first
  pair, and, unless hashes clash, the receipts of that pair are not valid. Later updates are right exactly if
  the hashes are that parents last used (`NodeKeysAgree`, `BPT.Update`, `BPT.GetReceipt`, `ReceiptExactly`,
  `DisplacedPairDoesNotShow`, `DisplacedPairHasNoReceipt`).
- `Metadata` of BTC, BTCLegacy and ETH signatures keeps the transaction hash. A transaction that was initiated
  with the hash of the metadata is not recognised once the initiator is signed (`MetadataIsClaims`,
  `SigningKeepsMetadata`, `SimpleHashInitiates`, `BitcoinMetadataChanges`).
- `FindSigners` returns an authority's children only if, among the signers that sort after the authority,
  the children come first. A page of `book-2` sorts between `book` and the pages of `book` and hides
  them (`FindSigners`, `LookalikeHidesChildren`, `LookalikeRun`, `NoLookalikes`).
- `UpdateValidatorKey` rewrites the entry before it looks for a conflict. On a conflict the list holds the
  new hash twice and is no longer sorted (`UpdateValidatorKey`, `ConflictExample`).
- A delivery drops one slot whatever its number is, so ids end up under wrong numbers unless deliveries
  are in order (`DeliverKeepsWindow`, `SkippingMisfiles`, `SkippingExample`). The executor records every
  transaction that is not pending as delivered, also one that failed before its number was checked, for
  example an anchor whose source is no partition. The lookup that follows, or the next receipt, can then
  panic (`RecordIsStep`, `Record`, `PanicsWhenValid`, `SkippingPanics`).
- `Add` reports a change when a nil id is put into an empty slot (`DirtyMeansChanged`, `DirtyExample`).
- A receipt list is built with the receipt of the first occurrence of its last hash. It does not validate
  if that hash occurred before (`GetReceiptList`, `RootsAgree`, `RepeatedHashHasNoList`).
- Adding a nil hash to a Merkle state raises its count; unless there is an unpaired leaf, the state then stands
  for no list (`AddToMerkleTree`). On an empty chain `GetState` returns such a state (`GetState`).
- An entry whose external ids take more than 65535 bytes is encoded but cannot be read back (`RoundTrip`,
  `LargeExternalId`).
- Negative amounts below one unit are formatted wrongly (`NegativeAmounts`, `SmallNegatives`,
  `SmallNegativeAmount`).

In the other direction, the two "not found" errors inside the rebuilding part of `GetAnyState` cannot occur
(`Rebuild`).

## Model

| member | source | states |
|---|---|---|
| `MerkleTree.AuditPathReachesRoot` | smt/managed/receipt.go:44-52 | Completeness: applying the audit path of any leaf to that leaf gives the tree hash. |
| `MerkleTree.RootOfUp` | smt/managed/merklestate.go:242-256 | Pairing up one level of a tree, with an unpaired hash passed through, keeps its top-down hash. |
| `MerkleTree.AuditPathOfUp` | smt/managed/receipt.go:171-250 | An audit path is the sibling on the lowest level followed by the audit path one level up. |
| `MerkleSoundness.RootDeterminesLeaves` | smt/managed/merklestate.go:258-284 | Two lists of any hashes with one root are equal exactly if they are equally long and the lengths of their hashes agree, unless the two trees hash two different strings to one value. |
| `MerkleSoundness.RootsExactly` | smt/managed/merklestate.go:258-284 | On 32-byte hashes, two lists have one root exactly if their trees are the same down to where one of them has a leaf, unless the two trees give away a collision; they are then equal exactly if they are equally long. |
| `MerkleSoundness.InnerNodeAsLeaf` | smt/managed/hash.go:53-55 | Two lists of 32-byte hashes with one root, where an inner node of the first is a leaf of the second, without any collision. |
| `MerkleSoundness.PreimagesDetermineLeaves` | smt/managed/merklestate.go:258-284 | Lists of hashes of strings that are not as long as two hashes are determined by their root, whatever their lengths, unless a collision is given away. |
| `MerkleSoundness.OddSizesShareRoot` | smt/managed/hash.go:53-55 | Two different lists of hashes of other lengths with one root, whatever the hash function. |
| `MerkleSoundness.OnlyLeavesAreProved` | smt/managed/receipt.go:44-52 | Unless tree and receipt give away a collision, a receipt with a start of 32 bytes reaches the root of a chain of 32-byte hashes exactly if its entries are siblings on a way up the tree. Any receipt that reaches it is the audit path of an element exactly if its start has 32 bytes and its turns end at a leaf of a tree of that size, and the turns give the position. |
| `MerkleSoundness.PreimageProvesLeaf` | smt/managed/receipt.go:44-52 | If the start is known to be the hash of a string not as long as two hashes, a receipt that reaches the root is that of an element or begins below one, unless a collision is given away. |
| `MerkleSoundness.InnerNodeIsAccepted` | smt/managed/receipt.go:44-52 | The receipt that starts at the inner node over two of three elements validates although its start has 32 bytes and is no element; it hashes nothing that the tree does not. |
| `MerkleSoundness.LongStartIsAccepted` | smt/managed/receipt.go:44-52 | The receipt that starts at two leaves glued together validates although its start is no leaf. |
| `MerkleSoundness.ReceiptIsUnique` | smt/managed/receipt.go:32-52 | Two receipts for one position and one anchor are equal exactly if their starts have one length, unless they give away a collision. |
| `StatefulMerkle.CarryAppends` | smt/managed/merklestate.go:242-256 | Carrying a hash through the counter of subtrees turns the state of a list into the state of the list with that hash appended; a nil hash appends an empty one to a list of odd length and changes nothing otherwise. |
| `StatefulMerkle.FoldIsRoot` | smt/managed/merklestate.go:265-284 | Folding the subtrees from the lowest up is the tree hash of the leaves they stand for. |
| `StatefulMerkle.IntermediateIsLastPair` | smt/managed/merklestate.go:304-318 | The walk for an intermediate hash succeeds exactly where the new hash completes a subtree of 2^height leaves, and returns the last two subtrees of the level below. |
| `StatefulMerkle.MerkleState.PadPending` | smt/managed/merklestate.go:94-99 | Adds an empty slot only after a filled one or to an empty list, and the state still stands for the same leaves. |
| `StatefulMerkle.MerkleState.Trim` | smt/managed/merklestate.go:103-107 | Removes all trailing empty slots, and the state still stands for the same leaves. |
| `StatefulMerkle.MerkleState.AddToMerkleTree` | smt/managed/merklestate.go:242-256 | The state of any list of leaves becomes the state of that list with the hash appended; count and hash list grow by it. A nil hash does so only for lists of odd length, and otherwise leaves a state that stands for no list. |
| `StatefulMerkle.MerkleState.GetMDRoot` | smt/managed/merklestate.go:265-284 | For every list of leaves the state stands for, the result is nil if it is empty and its Merkle tree hash otherwise. |
| `StatefulMerkle.MerkleState.GetIntermediate` | smt/managed/merklestate.go:304-318 | The loop computes the recursive walk; the state is padded and otherwise keeps its meaning. |
| `StatefulMerkle.MerkleHash` | internal/encoding/hash/hasher.go:86-101 | The hash of a list is 32 zero bytes if it is empty and its Merkle tree hash otherwise. |
| `MerkleManagement.LowStep` | smt/managed/merklemanager.go:49-92 | Counting up by one moves the position within a mark set by one, or back to 0 at its end. |
| `MerkleManagement.LowIsRemainder` | smt/managed/merklemanager.go:49-92 | The position within a mark set is what remains when multiples of the mark frequency are taken off. |
| `MerkleManagement.HighIsConstant` | smt/managed/merklemanager.go:133-181 | All elements of a mark set have the same start of the set. |
| `MerkleManagement.MarkPoints` | smt/managed/merklemanager.go:133-181 | The set around any element begins right after one mark point and ends at the next. |
| `MerkleManagement.ListOfMarkSet` | smt/managed/merklemanager.go:133-181 | The hash list of any state within a mark set is the slice of the chain from the start of the set. |
| `MerkleManagement.MerkleManager.AddHash` | smt/managed/merklemanager.go:49-92 | The chain grows by the hash, unless it must be unique and is there already; the head is the state of the chain, a state is stored at exactly the mark points, and the index holds first positions. |
| `MerkleManagement.MerkleManager.GetState` | smt/managed/merklemanager.go:112-128 | On a chain with elements, the stored state or nothing; on an empty chain, the state around a nil hash. |
| `MerkleManagement.MerkleManager.Rebuild` | smt/managed/merklemanager.go:147-181 | Between mark points the state is rebuilt without any lookup failing, and stands for the chain up to the element; its hash list is the mark set up to the element. |
| `MerkleManagement.MerkleManager.GetAnyState` | smt/managed/merklemanager.go:133-181 | For every element of the chain, the result stands for the chain up to that element, with the hash list that the head had then; past the end there is none. |
| `MerkleManagement.MerkleManager.GetIntermediate` | smt/managed/merklemanager.go:192-202 | Succeeds exactly where the element completes a subtree of 2^height elements, with the two subtrees that were combined. |
| `MerkleReceipts.PairStep` | smt/managed/receipt.go:184-205 | Inside the column, the audit path continues with the other half of the pair and then with the path of the parent. |
| `MerkleReceipts.EdgeStep` | smt/managed/receipt.go:217-247 | Past the column, the last complete subtree meets the incomplete one on its right, if there is one. |
| `MerkleReceipts.LeftStep` | smt/managed/receipt.go:217-247 | Above that, the incomplete subtree meets a complete one on its left exactly on levels with an odd number of those. |
| `MerkleReceipts.ColumnStep` | smt/managed/receipt.go:184-205 | One successful round of the first loop adds the sibling and leaves the walk on the parent of the node that covers the start. |
| `MerkleReceipts.EndOfColumns` | smt/managed/receipt.go:184-205 | When the first loop passes the anchor, its node is the last complete subtree of its level. |
| `MerkleReceipts.Receipt.Validate` | smt/managed/receipt.go:44-52 | True exactly if applying all entries to the start gives the anchor. |
| `MerkleReceipts.Receipt.ClimbColumns` | smt/managed/receipt.go:184-205 | The first loop ends with a prefix of the start's audit path whose rest begins at the last complete subtree of the reached level. |
| `MerkleReceipts.Receipt.CloseReceipt` | smt/managed/receipt.go:217-250 | The second loop, over the slots of the anchor state, completes the audit path and computes the root. |
| `MerkleReceipts.Receipt.BuildReceipt` | smt/managed/receipt.go:163-250 | For every start and end in the chain, the entries are the audit path of the start in the tree of the elements up to the end, and the anchor is its root. |
| `MerkleReceipts.GetReceipt` | smt/managed/receipt.go:125-158 | A receipt exists exactly if both hashes are in the chain with the start first; it is the audit path, its anchor is the root, and it validates. |
| `MerkleReceipts.Combine` | smt/managed/receipt.go:89-99 | Fails exactly if the second receipt does not start at the first one's anchor; joined to a valid receipt, the whole is valid exactly if the second one is. |
| `MerkleLists.AnchorIsValue` | smt/managed/receiptlist.go:29-40 | Adding the elements to any slots and folding them is the hash of a tree whose leaves are the slots and then the elements. |
| `MerkleLists.ValueMeets` | smt/managed/receiptlist.go:29-40 | A tree whose right sides have 32 bytes and whose hash is the root of a chain is the same as the tree of the chain down to where one of them has a leaf, unless a collision is given away. |
| `MerkleLists.LastLeavesMet` | smt/managed/receiptlist.go:8-19 | Its last leaves are then the last elements of the chain, unless a leaf of one tree is an inner node of the other. |
| `MerkleSlots.ShapedMeansSlice` | smt/managed/receiptlist.go:8-19 | With the slots of the count and lengths that add up, the slots represent the chain at the count, and the elements are the rest of it. |
| `MerkleSlots.RepresentsIsShaped` | smt/managed/merklestate.go:242-256 | A state that stands for a list has its slots where the length of the list has its bits. |
| `MerkleSlots.ReceivedShape` | smt/managed/hash.go:120-145 | Slots are read exactly if there is a string for every set bit, and they are those of the count exactly if none of these is empty. |
| `MerkleSlots.UnmarshalSlots` | smt/managed/hash.go:120-145 | The loop over the bits, of any signed count, reads the slots that the recursion over the bits gives. |
| `ReceiptLists.ReceiptList.WalkElements` | smt/managed/receiptlist.go:30-36 | Nothing exactly for a hash that is not 32 bytes; otherwise the state, whatever it was, with the elements added. |
| `ReceiptLists.ReceiptList.Validate` | smt/managed/receiptlist.go:21-64 | For any state, with any signed count, accepts exactly the lists whose receipt starts at the last element, ends at the root of the state with the elements added, and validates, together with its continuation, unless the count comes to zero; for a state that stands for leaves, that root is the Merkle tree hash of those and the elements. |
| `ReceiptLists.GetReceiptList` | smt/managed/receiptlist.go:93-128 | A list exists exactly for a range within the chain and holds that slice and the state before it; it is valid exactly if its hashes have 32 bytes and the root at the first occurrence of its last hash is the root of the run. |
| `ReceiptLists.ValidListIsSlice` | smt/managed/receiptlist.go:8-19 | For any accepted list whose anchor is the root of a chain of 32-byte hashes, whatever its state, unless validating it gives away a collision with the tree of the chain: the state is that of the chain at its count and the elements are the rest of the chain exactly if the slots are the set bits of the count, and count and number of elements add up to the length of the chain. |
| `ReceiptLists.PreimagesEndChain` | smt/managed/receiptlist.go:8-19 | For any state, without the length: elements that are hashes of strings not as long as two hashes are the last elements of the chain, unless a collision is given away or an element of the chain is a result of validating the list. |
| `ReceiptLists.ListOfPreimagesIsSlice` | smt/managed/receiptlist.go:8-19 | If also the elements of the chain are hashes of such strings and the slots of the state have 32 bytes, whatever they hold, the elements are the last ones of the chain, unless a collision is given away. |
| `ReceiptLists.PreimageIsInChain` | smt/managed/receiptlist.go:8-19 | For any state and any other elements: an element that is the hash of a string not as long as two hashes is in the chain the list is anchored in, or below one of its elements, unless a collision is given away. |
| `ReceiptLists.KnownLeavesMatch` | smt/managed/receiptlist.go:8-19 | If the leaves that the state stands for are known, the tree of those and the elements and the tree of the chain are the same down to their leaves, and they are the chain exactly if the lengths add up. |
| `ReceiptLists.InnerNodeListIsAccepted` | smt/managed/receiptlist.go:21-64 | Validate accepts a list from the empty state, anchored in a chain of three elements, whose first element is an inner node of it. |
| `ReceiptLists.WrongSlotsAreAccepted` | smt/managed/receiptlist.go:21-64 | Validate accepts an inner node of a chain of four elements as its fourth element, after a state with count three and one slot, in either of two places; nothing is hashed that the tree of the chain does not hash. |
| `ReceiptLists.ElementBelowIsAccepted` | smt/managed/receiptlist.go:21-64 | Validate accepts an element below the only element of the chain. |
| `ReceiptLists.RootsAgree` | smt/managed/receiptlist.go:93-128 | On a chain of 32-byte hashes the roots at two elements are equal exactly if they are the same element, unless the two trees give away a collision or an element is an inner node of the larger one: so a list validates exactly if its last hash did not occur before. |
| `ReceiptLists.RepeatedHashHasNoList` | smt/managed/receiptlist.go:93-128 | A chain that holds one hash twice: the list for its second element is built, and validates exactly if the hash is its own combination. |
| `PatriciaTrees.BitsInjective` | smt/pmt/bpt.go:208-245 | Two 32-byte keys with the same path of bits are the same key, so two distinct values part before the path ends. |
| `PatriciaTrees.PathEnds` | smt/pmt/bpt.go:208-245 | Two distinct keys on one path leave at least one more bit to part at, so the insert recursion never runs past the key. |
| `PatriciaTrees.TreeIsUnique` | smt/pmt/bpt.go:208-245 | A map has only one tree. |
| `PatriciaTrees.PutRepresents` | smt/pmt/bpt.go:208-245 | Inserting into the tree of a map gives the tree of the updated map. |
| `PatriciaTrees.ForkRepresents` | smt/pmt/bpt.go:231-244 | Meeting another key's value pushes both down to where they part and loses neither. |
| `PatriciaTrees.RunRepresents` | smt/pmt/bpt.go:249-251 | After any run of inserts the tree is that of the map of last values. |
| `PatriciaTrees.InsertionOrderIrrelevant` | smt/pmt/bpt.go:249-251 | Runs that end in the same map end in the same tree, whatever their order and whatever they overwrote. |
| `PatriciaTrees.NodesAreShared` | smt/pmt/bpt.go:208-245 | There is a node exactly where two keys of the map have not parted yet. |
| `PatriciaNodeKeys.NodeKeyOfPath` | smt/pmt/bpt.go:432-446 | The shifts of GetNodeKey give the path to the node, an end bit and zeros, whatever value is being inserted. |
| `PatriciaNodeKeys.NodeKeysAgree` | smt/pmt/bpt.go:432-446 | Two nodes have the same key exactly if they are the same node or both have height 255. |
| `PatriciaInserts.InsertAtNode` | smt/pmt/bpt.go:208-245 | The tree with stored hashes changes exactly as the plain tree does, and a node keeps its stored hash until an update. |
| `PatriciaInserts.NodeStaysSettled` | smt/pmt/bpt.go:208-245 | After an insert, every node whose hash is not that of the hashes it last used is marked or has a marked child; a node of height 255 that is marked counts with the hash that was in its place before. |
| `PatriciaInserts.MarksMeanChange` | smt/pmt/bpt.go:208-245 | An insert marks nothing exactly if the key has that value already. |
| `PatriciaInserts.LowestNodeIsMarked` | smt/pmt/bpt.go:208-245 | An insert that marks anything marks the node of height 255 on the path of its key, if there is one. |
| `PatriciaUpdates.DirtyMarks` | smt/pmt/bpt.go:129-134 | After marking nodes on one path, the dirty map holds them and all that it held, but for another node of height 255. |
| `PatriciaUpdates.RehashKeepsSettled` | smt/pmt/bpt.go:281-310 | Rehashing a dirty node and marking its parent keeps every outdated hash accounted for, with the hashes that the node used. |
| `PatriciaUpdates.CleanIsTreeHash` | smt/pmt/bpt.go:264-277 | With nothing excused, every stored hash is the hash of the tree below it. |
| `PatriciaUpdates.StoredIsHashWith` | smt/pmt/bpt.go:264-277 | After an update the stored hashes are those of the tree with the hashes put in that parents last used for nodes that were left out. |
| `PatriciaUpdates.PutInShows` | smt/pmt/bpt.go:264-277 | Putting hashes in for some nodes gives the hash of the tree exactly if they are the hashes of those nodes, unless hashes clash. |
| `PatriciaUpdates.ValueDoesNotShow` | smt/pmt/bpt.go:264-277 | A value below a node whose hash is put in does not show in the hash. |
| `PatriciaState.Highest` | smt/pmt/bpt.go:141-149 | The first node of the dirty list sorted by height is one of the greatest height. |
| `PatriciaState.BPT.Insert` | smt/pmt/bpt.go:249-251 | The contents gain the key. A node of height 255 is marked exactly if the key has a twin and its value is new, and displaces the one marked before; it is noted with the hash that its parent used for what was in its place. |
| `PatriciaState.BPT.Update` | smt/pmt/bpt.go:281-310 | Terminates with nothing dirty and the same tree, without meeting a node without children. Every update gives the hash of the tree with the hashes put in that parents last used for displaced nodes: the stored one if the parent was rehashed, the one from before otherwise. Unless hashes clash, it is right exactly if those are, and it is right whenever at most one pair of keys differs in the last bit only. A first update displaces every pair but the one marked last, with the hash of a new node, so it is right exactly if at most one pair of keys differs in the last bit only. |
| `PatriciaState.DisplacedPairDoesNotShow` | smt/pmt/bpt.go:432-435 | Two trees with different contents and the same root hash, whatever the hash function. |
| `PatriciaReceipts.CollectIsValid` | smt/pmt/bpt_receipt.go:14-68 | A receipt is found exactly for the keys of the map and starts at the key's value; with the hashes as stored, it leads to the node's hash if the nodes on the way are up to date. |
| `PatriciaReceipts.ReceiptExactly` | smt/pmt/bpt_receipt.go:14-68 | On stored hashes that were computed from noted ones, a receipt leads to the stored hash if on its way the noted hashes of displaced nodes are those of the tree, and beside it the stored ones; unless hashes clash, only then. |
| `PatriciaState.BPT.GetReceipt` | smt/pmt/bpt_receipt.go:72-79 | A receipt is found exactly for the keys of the map. After any update it leads to the root's hash if the hashes that parents used on its way fit, and only then, unless hashes clash. After a first update, or one with no displaced node, that means that the key is in no displaced pair. |
| `PatriciaState.DisplacedPairHasNoReceipt` | smt/pmt/bpt_receipt.go:72-79 | On the tree with two pairs, the receipt of the second pair validates, and that of the first does not, unless a hash on its way clashes with that of a new node. |
| `ExchangeLedger.DeliverInOrder` | protocol/ledger.go:12-21 | Delivering the next number keeps the window and every other slot. |
| `ExchangeLedger.DeliverKeepsWindow` | protocol/ledger.go:12-21 | The window survives a delivery exactly if the number is the next one or there is no other slot to lose. |
| `ExchangeLedger.SkippingMisfiles` | protocol/ledger.go:12-21 | After a delivery that skips numbers, every later number answers with the id of a lower one. |
| `ExchangeLedger.SkippingExample` | protocol/ledger.go:12-21 | The smallest ledger where a number answers with the id of another. |
| `ExchangeLedger.DirtyMeansChanged` | protocol/ledger.go:23-38 | On any ledger, valid or not, `dirty` says that the receipt changed it, except exactly when a nil id is put into an empty slot of a window that does not grow. |
| `ExchangeLedger.DirtyExample` | protocol/ledger.go:23-38 | The smallest ledger that is called dirty without a change. |
| `ExchangeLedger.StepSlot` | protocol/ledger.go:6-39 | Every receipt above the delivered number and every in-order delivery keeps the window, and a later slot keeps its id or takes the received one. |
| `ExchangeLedger.RunRefinesMap` | protocol/ledger.go:6-49 | Over every run from any ledger, the window stays valid, Delivered counts the deliveries, and above it the ledger answers with the first id received. |
| `ExchangeLedger.RunReceived` | protocol/ledger.go:6-39 | Over every run, Received is the highest number seen. |
| `ExchangeLedger.ArrivalOrderIrrelevant` | protocol/ledger.go:6-39 | Receipts of distinct undelivered numbers give the same ledger in every order. |
| `ExchangeLedger.TransactionExchangeLedger.Add` | protocol/ledger.go:6-39 | On any ledger, valid or not, the new ledger is the receipt or the delivery, with its exact `dirty`; the uint64 arithmetic of a receipt does not wrap and no index is out of range exactly where it does not panic. |
| `ExchangeLedger.TransactionExchangeLedger.Get` | protocol/ledger.go:42-49 | The id in the slot of the number, found exactly if it is not nil. |
| `ExchangeLedger.TransactionExchangeLedger.Record` | internal/block/transaction.go:418-436 | The new ledger and the outcome for every transaction on every ledger, also one with a broken window: exactly receipts of delivered numbers are turned away, and change nothing; everything that is not pending is delivered whatever its number. On a valid window, a receipt of an undelivered number and the next delivery return the id that was there for the number after it. A receipt panics exactly if there are more slots than numbers, and a delivery exactly if the number after it is the next one and its slot is missing. |
| `ExchangeLedger.RecordAnswers` | internal/block/transaction.go:418-436 | On every ledger, a receipt that does not panic returns what was received before for the number after it; a delivery returns the second slot, if the number after it was received. |
| `ExchangeLedger.NextIsKnown` | internal/block/transaction.go:418-436 | After any run, a receipt or the next delivery returns the id that the ledger had at first for the number after it, or else the first one received for it; from the empty ledger, the first one received. |
| `ExchangeLedger.RecordIsStep` | internal/block/transaction.go:418-436 | Receipts of undelivered numbers and deliveries of the next one are steps of a run; the window survives exactly those and deliveries with no slot to lose. |
| `ExchangeLedger.PanicsWhenValid` | internal/block/transaction.go:418-436 | On a valid window nothing panics but repeating the last delivery when just the next number was received. |
| `ExchangeLedger.SkippingPanics` | internal/block/transaction.go:418-436 | The smallest ledger on which a receipt panics: a delivery skipped a number. |
| `PartitionLedgers.LedgerAccount.Partition` | protocol/system.go:14-33 | Finds or creates the ledger of a URL in a strictly sorted list; a URL keeps its ledger object for ever, and no other ledger is touched. |
| `PartitionLedgers.LedgerAccount.RecordTransaction` | internal/block/transaction.go:402-436 | Recording changes the ledger of the source, creating it if needed, as Record says, and leaves all others unchanged. On a valid window, a receipt of an undelivered number and the next delivery return the id that this ledger had for the number after it. |
| `PartitionLedgers.LedgerAccount.RecordAll` | internal/block/transaction.go:402-436 | Recording any transactions, in any interleaving and up to the first panic, on the account's ledger objects leaves each ledger as if only the transactions of its own partition had been recorded; there is a panic exactly if some partition's transactions would panic by themselves. Where the transactions of a partition are a run, each returns the first id that its own partition received for the number after it. |
| `PartitionLedgers.RecordsAreRun` | internal/block/transaction.go:402-436 | Receipts of undelivered numbers and deliveries in order, recorded in sequence, never panic and are a run of the ledger, so that the window answers like a first-write-wins map. |
| `Order.CompareIsLexicographic` | pkg/url/url.go:142-153 | One key is less than another exactly if, at the first place where they do not agree, it ends or has the smaller byte. |
| `Order.CompareTransitive` | pkg/url/url.go:142-153 | The lexicographic comparison is transitive. |
| `Order.InsertKeepsSorted` | internal/sortutil/sort.go:29-47 | Inserting an absent key at its place keeps the list strictly sorted and adds just that key. |
| `Order.RemoveKeepsSorted` | protocol/network_def.go:68-76 | Removing a position keeps the list strictly sorted and removes just that key. |
| `SortUtil.SortSearch` | internal/sortutil/sort.go:14-23 | For any predicate, monotone or not, the result is at a step from false to true. |
| `SortUtil.Search` | internal/sortutil/sort.go:14-23 | On an ascending list, the first position that is not less, found exactly if it is equal. |
| `SortUtil.BinaryInsert` | internal/sortutil/sort.go:29-47 | Adds an entry at the place of its key exactly if no entry has that key, and otherwise returns the position of that entry. |
| `Urls.ChildIsAfter` | pkg/url/url.go:314-338 | A child sorts strictly after its parent. |
| `Urls.CompareIsTextEquality` | pkg/url/url.go:142-153 | Two URLs compare equal exactly if their folded texts are the same. |
| `NetworkDefinitions.RowOfSetEntry` | protocol/network_def.go:57-64 | Scanning for a folded partition name and updating or appending is a map update. |
| `NetworkDefinitions.NetworkDefinition.ValidatorByHash` | protocol/network_def.go:29-35 | Found exactly if the hash is in the table, with the entry of that hash and its row. |
| `NetworkDefinitions.NetworkDefinition.IsActiveOn` | protocol/network_def.go:38-45 | True exactly if the row maps the folded name to active. |
| `NetworkDefinitions.NetworkDefinition.AddValidator` | protocol/network_def.go:49-65 | Sets one cell of the table, creating the row if needed; the list stays strictly sorted with one entry per folded name, and every entry carries the hash of its key. |
| `NetworkDefinitions.NetworkDefinition.RemoveValidator` | protocol/network_def.go:68-76 | Removes exactly the row of the key's hash and keeps the list valid. |
| `NetworkDefinitions.NetworkDefinition.UpdateValidatorKey` | protocol/network_def.go:79-102 | For keys of any length: moves the whole row to the new hash; a missing key changes nothing; on a conflict only that entry was rewritten in place, and the list is valid exactly if there was no conflict. Printing a key in an error panics exactly if its slice has a capacity of less than four bytes. |
| `NetworkDefinitions.ConflictExample` | protocol/network_def.go:79-102 | Two validators, one of which takes the key of the other: both entries then have one hash. |
| `NetworkDefinitions.RunIsTrace` | protocol/network_def.go:49-102 | Over any run of successful calls, a validator is active on a partition as the last Add for it said, traced back through key updates and cut by removals. |
| `Signatures.UnpackIsLeavesUnderDelegators` | protocol/signature.go:122-152 | For every tree, one element per leaf from left to right: that leaf under the delegators on its path from the root. |
| `Signatures.UnpackIsFlat` | protocol/signature.go:122-152 | No set and no remote wrapper survives at any depth. |
| `Signatures.UnpackFlat` | protocol/signature.go:122-152 | Unpacking an element of the result again gives just that element. |
| `SignatureObjects.UnpackSignature` | protocol/signature.go:122-152 | On signature objects: nothing that existed is changed, the returned array is new, every delegated signature in it is a new object and every other one is a leaf of the input, and together they stand for the flattening. |
| `Signatures.MetadataIsClaims` | protocol/signature.go:233-238 | Two signatures have the same metadata exactly if they differ only in signature bytes and transaction hashes and, for BTC, BTCLegacy and ETH, agree in the transaction hash. |
| `Signatures.MetadataIsShown` | protocol/signature.go:233-238 | The metadata of a leaf under delegators is the leaf with no signature bytes and, but for BTC, BTCLegacy and ETH, 32 zero bytes for the transaction hash, under the same delegators. |
| `Signatures.SigningKeepsMetadata` | protocol/signature.go:489-493 | Filling in transaction hash and signature keeps the metadata exactly if the kind clears the transaction hash or it was there already. |
| `Signatures.SimpleHashMatches` | pkg/client/signing/builder.go:288-314 | A signed initiator matches the hash of its unsigned metadata exactly if its kind is not BTC, BTCLegacy or ETH. |
| `Signatures.MerkleHashMatches` | pkg/client/signing/builder.go:288-314 | A signed initiator always matches the Merkle hash of its initiator fields. |
| `Signatures.SimpleHashInitiates` | pkg/client/signing/builder.go:288-314 | SignatureDidInitiate recognises an initiator made with the simple hash exactly if its kind is not BTC, BTCLegacy or ETH. |
| `Signatures.BitcoinMetadataChanges` | protocol/signature.go:489-493 | A BTC signature whose metadata changes when it is signed. |
| `Signatures.FlatDoesNotPanic` | protocol/signature.go:887-891 | On an unpacked element, metadata panics exactly if the innermost signature is nil. |
| `Signatures.InitiatorOfWrap` | protocol/signature.go:894-906 | A delegated initiator exists exactly if the leaf has one and every delegator is named, and appends the delegators from the inside out. |
| `Signatures.InitiatorOfNil` | protocol/signature.go:894-906 | Under delegators, a nil signature panics exactly if all of them are named; otherwise the error about them comes first. |
| `Signatures.FourFields` | protocol/signature.go:240-252 | The initiator hash of a key signature without delegators pairs key with signer and version with timestamp. |
| `Signatures.InitiatorIsFields` | protocol/signature.go:240-252 | A leaf under delegators has an initiator exactly if it is a key signature with key, signer, version and timestamp and every delegator is named; its hash is the Merkle root over those four, in this order, followed by the delegators from the inside out. |
| `Signatures.SignatureDidInitiate` | protocol/signature.go:99-120 | From the leaves and the delegators above them: yes exactly if some leaf matches, by the hash of its metadata or of its key, signer, version, timestamp and delegators in this order, and every leaf before it has all these fields without matching; panics exactly if a nil leaf is reached first. The same on the unpacked elements. |
| `TransactionStatuses.RunKeepsFirstNewest` | protocol/transaction.go:40-51 | After any run of AddSigner, each added URL holds the reduced form of the first signer that reached its highest version: a page with the same thresholds, no credits, and exactly its delegated entries in order, without hashes and times of use. |
| `TransactionStatuses.PagesByVersion` | protocol/transaction.go:40-51 | Of two pages with one URL, the second replaces the first exactly if its version is higher. |
| `TransactionStatuses.LiteIdentityIsVersionOne` | protocol/authority.go:96-114 | A lite identity is never replaced by another one with its URL, and by a signer of unknown type exactly from version 2. |
| `TransactionStatuses.TransactionStatus.AddSigner` | protocol/transaction.go:40-51 | Stores the reduced form, with everything that it keeps and drops, unless a version at least as new is there; the other signers stay, and the list stays strictly sorted by URL. |
| `TransactionStatuses.TransactionStatus.GetSigner` | protocol/transaction.go:53-63 | The signer that the map has for the URL, or nothing. |
| `TransactionStatuses.TransactionStatus.FindSigners` | protocol/transaction.go:65-100 | A listed authority is the only result; otherwise the result is the linear filter of its children exactly if the children come first among the signers after it. In any case it is a run of signers right after the authority that begins and ends with a child. |
| `TransactionStatuses.TransactionStatus.EndOfChildren` | protocol/transaction.go:81-99 | Although its predicate may change back, the second search ends after a child and before a non-child; it is made exactly if the first signer after the authority is a child. |
| `TransactionStatuses.NoLookalikes` | protocol/transaction.go:65-100 | Children come first whenever no listed URL continues the authority's text other than as a child. |
| `TransactionStatuses.LookalikeHidesChildren` | protocol/transaction.go:65-100 | A sorted list of two signers on which the children do not come first. |
| `TransactionStatuses.LookalikeRun` | protocol/transaction.go:65-100 | FindSigners on that list returns nothing although a page of the authority is listed. |
| `Signers.MakeLiteSigner` | protocol/authority.go:70-94 | The page that is passed in is not changed, and the reduced one shares no object with it. It has the same URL, version and four thresholds, no credits, and one entry for exactly each entry with a delegate, in order, without hash and time of use. Signers that are no accounts keep URL and version, all others everything. |
| `Signers.OneReducedForm` | protocol/authority.go:70-94 | That determines the entries of the reduced page. |
| `Signers.LiteKeepsDelegates` | protocol/authority.go:70-94 | A delegate is found in the reduced page exactly if it is found in the full one. |
| `Signers.EntryByDelegate` | protocol/authority.go:170-182 | The first entry whose delegate is the key book of the owner, or -1 exactly if there is none. |
| `Signers.PageNumbers` | protocol/protocol.go:584-596 | A URL is that of a page exactly if its last segment is the decimal text of a number below 65536, possibly with leading zeros. |
| `Signers.BookOf` | protocol/authority.go:170-182 | The key book that a delegate is looked up by is the URL without all page numbers at the end of its path. |
| `KeyPages.SpecTransitive` | protocol/keys.go:66-81 | The comparator of key page entries is transitive. |
| `KeyPages.SpecFlips` | protocol/keys.go:66-81 | Two entries compare equal exactly if both have a delegate and hash and delegate agree. |
| `KeyPages.OrderOfPage` | protocol/keys.go:66-81 | A page is sorted by the comparator exactly if entries ascend by hash and, of one hash, those without a delegate come first, followed by those with one, strictly ascending by delegate. |
| `KeyPages.HashAscending` | protocol/keys.go:55-63 | A page sorted by hash and delegate ascends by hash, so the coarser search is legitimate. |
| `KeyPages.KeyPageAccount.AddKeySpec` | protocol/keys.go:66-81 | The page stays in order and gains the entry. An entry with the same hash and delegate is replaced where it is; otherwise the others keep their places, and the entry comes after all undelegated entries with its hash. |
| `KeyPages.KeyPageAccount.RemoveKeySpecAt` | protocol/keys.go:84-87 | The page stays sorted and loses exactly the entry at that position. |
| `KeyPages.KeyPageAccount.EntryByKeyHash` | protocol/keys.go:55-63 | Finds the first entry with the hash, exactly as a scan of the whole page would, and it has no delegate whenever some entry with the hash has none. |
| `KeyPages.KeyPageAccount.SetThreshold` | protocol/keys.go:43-52 | Accepts exactly 1 to the number of keys, and changes nothing otherwise. |
| `FactomEntries.ParseOfEncode` | protocol/factom_data_entry.go:73-85 | External ids that fit their size fields are read back as written. |
| `FactomEntries.EncodeOfParse` | protocol/factom_data_entry.go:128-147 | External ids that are read are written back byte for byte. |
| `FactomEntries.EncodedBytes` | protocol/factom_data_entry.go:65-94 | The layout byte by byte: version 0, chain id, size of the external ids with the high byte first, external ids, data. |
| `FactomEntries.EncodedExtId` | protocol/factom_data_entry.go:73-85 | Where every external id is in the encoding: after its size with the high byte first, one after another. |
| `FactomEntries.ParseStops` | protocol/factom_data_entry.go:128-147 | What is read of any bytes is a prefix, all of it on success, and on failure what follows is no external id. |
| `FactomEntries.DecodesExactly` | protocol/factom_data_entry.go:106-150 | The decoder accepts exactly the encodings within its limit, of any version, and gives what was encoded. |
| `FactomEntries.RoundTrip` | protocol/factom_data_entry.go:65-150 | An entry whose chain id has a non-zero byte is encoded, and is read back unchanged exactly if its external ids take at most 65535 bytes and it is within the decoder's limit. |
| `FactomEntries.LargeExternalId` | protocol/factom_data_entry.go:65-94 | One external id of 65534 bytes: the size field says 0, and the entry is not read back. |
| `FactomEntries.CanonicalEncoding` | protocol/factom_data_entry.go:65-150 | Whatever the decoder accepts is encoded again to the same bytes with version 0, unless all bytes of its chain id are zero; then there is no encoding. |
| `FactomEntries.FactomDataEntry.MarshalBinary` | protocol/factom_data_entry.go:65-94 | Computes the encoding, with size fields cut to 16 bits, and fails exactly if all bytes of the chain id are zero. |
| `FactomEntries.FactomDataEntry.UnmarshalBinary` | protocol/factom_data_entry.go:106-150 | On any bytes the loop ends without slicing out of range and computes the decoding, including the fields left behind by a failure. |
| `Fees.ListFeeIsExact` | protocol/fee_schedule.go:110-209 | Although `n-1` wraps for an empty list, the uint64 sum is the exact fee. |
| `Fees.FeeIsExact` | protocol/fee_schedule.go:110-209 | For every user transaction within the size limit and without a sliding fee, the fee is that of exact arithmetic in the number of 256-byte chunks that hold the transaction. |
| `Fees.ChunksHold` | protocol/fee_schedule.go:64-79 | The number of chunks is the one that holds the size and no fewer would. |
| `Fees.MoreBytesCostMore` | protocol/fee_schedule.go:110-209 | 256 more bytes cost exactly one more data fee, within the limit. |
| `Fees.FeeErrors` | protocol/fee_schedule.go:110-209 | When there is no fee but an error. |
| `Fees.SlidingIsScheduled` | protocol/fee_schedule.go:141-158 | There is a sliding fee exactly for a root identity `name.acme` whose name has from one to as many characters as the schedule has entries, and it is the entry of that length. |
| `Fees.SlidingFeeIsExact` | protocol/fee_schedule.go:141-158 | A root identity `name.acme` pays the entry of the schedule for the length of its name instead of the flat fee, and ten credits for each chunk of 256 bytes after the first, modulo 2^64. |
| `Fees.TransferNetCost` | protocol/fee_schedule.go:211-241 | What a transfer in so many chunks of 256 bytes costs after any number of refunds. |
| `Fees.AllFailedStillCosts` | protocol/fee_schedule.go:211-241 | A transfer whose outputs all fail still costs at least 200. |
| `Fees.BadOutputsDoNotPay` | protocol/fee_schedule.go:223-233 | With at least one good output, bad outputs never make a transfer cheaper than sending the good one alone. |
| `Fees.OtherNetCost` | protocol/fee_schedule.go:211-241 | Any other transaction costs the smaller of its fee and 100 after a refund; it is an error exactly if it paid more than 100 and has several outputs. |
| `Fees.ComputeSignatureFee` | protocol/fee_schedule.go:81-108 | One credit per chunk of 256 bytes, the last one possibly shorter, and one per delegation; an error exactly if the size is unknown or above the limit. |
| `Fees.DelegationsOfWrap` | protocol/fee_schedule.go:101-107 | An unpacked signature pays for every delegator on the path to its leaf. |
| `AmountFormat.FormatDenotesAmount` | protocol/format.go:19-43 | For every amount and precision, the text has that many fractional digits and no superfluous zeros, and denotes the amount. |
| `AmountFormat.NegativeAmounts` | protocol/format.go:14-43 | A negative amount is the minus sign and the text of its magnitude exactly if that is at least one unit. |
| `AmountFormat.SmallNegatives` | protocol/format.go:14-43 | What is written for negative amounts below one unit: the sign stands where a digit should be, or the integer part is missing. |
| `AmountFormat.SmallNegativeAmount` | protocol/format.go:14-43 | Minus five hundredths with two fractional digits. |
| `LiteAddresses.ParseAcceptsFormatted` | protocol/protocol.go:136-156 | For every URL: parses to a hash exactly if the host is that hash followed by a checksum, in hex of either case, where the checksum is bytes 28 to 31 of the hash of the authority as written, without its last eight characters. |
| `LiteAddresses.CanonicalAddresses` | protocol/protocol.go:136-156 | A lower-case authority without port parses to a hash exactly if it is that hash in hex, followed by bytes 28 to 31 of the hash of that text. |
| `LiteAddresses.AuthorityIsLongEnough` | protocol/protocol.go:136-156 | The slice that cuts off the checksum text never goes out of range. |
| `LiteAddresses.TokenAddressRoundTrip` | protocol/protocol.go:228-338 | Parsing the address made for a key hash and a token URL gives back the first 20 bytes of the hash and that URL. |
| `LiteAddresses.TokenAddressExactly` | protocol/protocol.go:228-266 | When there is an address for a key hash and a token URL, and its authority and path. |
| `LiteAddresses.ParseTokenExactly` | protocol/protocol.go:309-338 | For every URL, which key hash and token are read from it, and when it is malformed. |
| `LiteAddresses.HexText` | protocol/protocol.go:261-266 | Two lower-case hex digits for every byte, the high one first. |
| `LiteAddresses.ColonSplits` | pkg/url/url.go:78-84 | The first colon of the authority separates host and port. |
| `AccountPaths.CheckPart` | protocol/protocol.go:465-490 | Every illegal character is reported once, but a replacement character only if nothing was reported before it; that hides no first error. |
| `Utf8.DecodeOfEncode` | protocol/protocol.go:429-431 | The UTF-8 encoding of any code points is a valid string and decodes to them. |
| `Utf8.ValidIsEncoded` | protocol/protocol.go:429-431 | Every valid string is the encoding of the code points it decodes to. |
| `Utf8.DecodeConcat` | protocol/protocol.go:450-456 | Cutting a string before an ASCII byte cuts what it decodes to. |
| `AccountPaths.IsValidAccountPath` | protocol/protocol.go:427-499 | On any bytes, terminates and accepts exactly valid UTF-8 without two slashes in a row and with only allowed characters. |
| `AccountPaths.ValidPathIsPath` | protocol/protocol.go:427-499 | Valid paths are the UTF-8 encodings of characters that are slashes, in the Unicode classes, or one of the six symbols, with no two slashes in a row. |

## Left out

- NetworkDefinitions.NetworkDefinition.ValidatorByHash: returns the entry as a value; that later writes through the source's pointer change the list is not modelled.
- ExchangeLedger.TransactionExchangeLedger.Add: that a receipt does not panic is a precondition; Record says when it does. A window of any length fits in memory.
- KeyPages.KeyPageAccount.AddKeySpec: entries are values, so that the page shares the caller's entry object is not modelled.
- PatriciaState.BPT.Update: nodes are values named by their path; node objects, byte blocks on disk and lazy loading are not modelled.
- PatriciaReceipts.CollectIsValid: the tree is loaded in memory.
- MerkleSlots.UnmarshalSlots: takes the byte strings that follow the count; how they are cut from the bytes is not modelled.
- MerkleManagement.MerkleManager.AddHash: the chain takes hashes that are not nil; counts are unbounded, where the source uses int64; the chain is in memory, without the database's errors.
- Fees.FeeIsExact: assumes that every list entry of a transaction takes at least one byte of its encoding.
- Signatures.MetadataIsClaims: a system signature is its kind, its content and its transaction hash.
- Urls.ChildIsAfter: URLs are already folded and escaped, without user info, query or fragment.
- LiteAddresses.TokenAddressRoundTrip: the shape of the token URL's authority and path is what URL parsing guarantees; the parser itself is not modelled, and whether the token is ACME or its identity valid is an input.
- `NetworkDefinition.AddPartition`, `PartitionAnchor.SynthFrom` and `AddAnchorSigner`: more uses of the same sorted insert and search.
- `Receipt.Contains`, `ReceiptList.Included`, `CombineReceipts` and the merkle cascade of the hasher: easy members next to those modelled.
- `IsValidAdiUrl`, addresses of other key types, page number formatting: further string checks of the same kind.
- `GetMOfN` and rational thresholds: floating point of one expression.
- Token, credit and lock accounts: single-branch arithmetic.
- Making and verifying signature bytes, generated marshalling code, JSON, database, networking, consensus, command line and configuration.
