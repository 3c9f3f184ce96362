# Verified models of the trie, its encoding, the pruning journal, BLAKE2b streaming and the log blooms

This project models in Dafny what the node's state storage does, and proves the properties it is
relied on for.

- **The mutable Merkle-Patricia trie** over a reference-counted hash store. `Trie` holds the trie as a
  value with lookup, insertion, removal and repair as the mutable trie performs them node by node;
  `TrieMap` and `TrieShape` prove that this is a map in the one canonical shape. `Arena`,
  `NodeStorage`, `TrieLoad`, `TrieSteps`, `TrieWrite`, `TrieState` and `TrieDBMut` model the
  imperative trie: slots with a free list, nodes loaded lazily from the store, nodes cached under
  their hash, the death row, and the commit that encodes bottom-up. Every method refines the operation
  on the value. `TrieBuild` and `TrieHash` model the other definition of the root, the recursive split
  of a sorted list, and `TrieRoot` and `TrieRuns` prove that both agree for every map and every run.
  `TrieCounts`, `TrieScript` and `TrieTwins` follow the references a run takes from the store and gives
  back.
- **Reading it**: `TrieLookup` has the lookup over hashed and inlined nodes with its recorder, and
  proves recorded lookups to be complete and unforgeable proofs; `TrieEntries` and `TrieIter` have the
  ordered iterator.
- **RLP**: `RlpSpec` is the encoding of section B of the Ethereum Yellow Paper; `RlpStream` is the
  stack machine that inserts length bytes into the middle of its buffer; `RlpDecoder` and
  `RlpRoundTrip` are the cursor with its two caches.
- **The pruning journal**: `JournalRecord`, `JournalCount`, `JournalState`, `JournalRecovery`,
  `JournalPromise` and `Journal` model the overlay database over eras with forks, its batches, the
  pending overlay, and recovery from disk. Each public method keeps one soundness predicate, so its
  parts hold in every reachable state: the overlay counts are those of the journal, `cumulativeSize`
  is the bytes held, every live node is on disk once the outstanding batch is written, and every
  journalled node is readable at any time, as is every live one unless pending nodes were forgotten
  before they were written. `JournalPromise` says over two states what each step leaves readable.
  `JournalRuns` says all this of whole runs, from an empty disk on and stopped at any time, with the
  state computed from the steps alone; `JournalGap` shows runs that lose a node.
- **BLAKE2b**: `Blake2bCompress` transcribes the compression function; `Blake2b` is the two-block
  buffer, equal to the hash of section 3.3 of RFC 7693 for every digest length, key and way of cutting
  the input.
- **Log blooms**: `Bloom` has accruing, containment, the blooms of logs and receipts, and the filter.

`Bytes` and `Nibbles` hold what all of these share. Check everything with `dafny verify dfyconfig.toml`.

## How the model is put together

A class of the source is a class here, with its methods' loops as loops. What its state means is a
ghost value: a tree of owned slots for the arena, a stack of open lists for the encoder, a list of
half-visited nodes for the iterator, the live set for the journal. Methods are proved against
functions on these values, and the lemmas about the functions carry the results. Large methods of the
source are cut into several with contracts of their own.

A commit is stated for the store as a whole. `Settled` says how every count moves, and `Enough` that
each hash has at least as many references as the trie has occurrences of it. Over a run the counts are
exact as long as no stored trie with two equal nodes is edited.

## Premises

- The digest is a function, injective on a set of byte strings (`used`) that contains every node
  encoding written. The trie model is parametric in the digest.
- A root that is opened belongs to a complete stored trie; no lookup fails in the middle of an edit.
- Keys of the trie have at most 2^29 bytes and values at most 2^30, so that no encoding reaches the
  encoder's 32-bit lengths; journal records are below 2^32 bytes likewise.
- Reference counts stay inside their 32 bits; they are unbounded here.
- In the journal, stored values are determined by their keys, keys cut to twelve bytes are still
  different from each other and from the empty trie's, ids are unique within an era, and no block is
  journalled in an era whose records a restart left unread on disk.
- The order in which a hash map hands out its entries is arbitrary but the same for both passes over
  a drained transaction.

## Where the code does less than one might think

- `at` with index 2^64-1 answers differently once another element was asked for, because this index is
  also the mark of an unused offset cache. `RlpDecoder.AtIsIndependentOfHistory` gives the exact
  condition and `RlpDecoder.SentinelForgotten` a case.
- A filter whose topic list has an entry that is present but empty matches logs, but its list of
  possible blooms is empty. `Blooms.MatchIsFound` gives the exact condition and
  `Blooms.EmptyTopicMisses` a case.
- Recovery stops at the first era without a record, so a gap below the latest era loses what is older,
  and marking the latest era itself loses everything that is left.
  `JournalRecovery.RecoveryIsExact` gives the exact condition and `JournalGap.GapLosesBlock` a case.
- Moving on in a composed slice drops its second part. `Nibbles.NibbleSlice.Mid` gives the exact
  condition and `Nibbles.MidDropsSuffix` a case.
- Journalling a block or flushing while canonical nodes are in an unwritten batch makes these nodes
  unreadable until the write: they are the `hidden` ones. `JournalPromises.ForgetExactly` gives the
  exact condition and `JournalGap.FlushHidesNode` a case.
- The death row is a set, so two equal nodes that are given up before the next commit give back one
  reference, and the other stays in the store for good. `TrieCounts.LostExactly` gives the exact
  condition and `TrieTwins.TwinLeaks` a case.
- A removal that leaves nothing sets the root at once, every other edit only with the next commit.
  `TrieScripts.Entered` says which edits the root stands for.

## Model

| member | source | states |
|---|---|---|
| TrieMap.LookupInsert | patricia_trie/src/triedbmut.rs:464-646 | inserting sets exactly the inserted key and leaves every other answer as it was |
| TrieMap.LookupRemove | patricia_trie/src/triedbmut.rs:672-758 | removing takes away exactly the removed key and leaves every other answer as it was |
| TrieMap.LookupFixBranch | patricia_trie/src/triedbmut.rs:768-812 | repairing a branch with too few entries changes no answer |
| TrieMap.LookupFixExtension | patricia_trie/src/triedbmut.rs:813-867 | merging an extension with the leaf or extension below it changes no answer |
| TrieMap.InsertChanged | patricia_trie/src/triedbmut.rs:474-500 | an insertion leaves the trie the same exactly when the key had this value, which is what the changed flag reports |
| TrieMap.RemoveChanged | patricia_trie/src/triedbmut.rs:672-758 | a removal leaves the trie the same exactly when the key was absent |
| TrieShape.InsertCanonical | patricia_trie/src/triedbmut.rs:464-646 | insertion keeps the canonical shape: no empty value, no branch with fewer than two entries, no extension with an empty key or without a branch below it |
| TrieShape.RemoveCanonical | patricia_trie/src/triedbmut.rs:672-758 | removal with its repair keeps the canonical shape |
| TrieShape.FixBranchCanonical | patricia_trie/src/triedbmut.rs:768-812 | repair makes any branch with one entry left canonical again, whatever that entry is |
| TrieShape.CanonicalUnique | patricia_trie/src/triedbmut.rs:760-766 | two canonical tries are equal if and only if they answer every key alike |
| TrieShape.HeightBelow | patricia_trie/src/triedbmut.rs:382-437 | a canonical trie is no higher than its longest key is long, which bounds every walk |
| TrieRoot.RunTree | patricia_trie/src/triedbmut.rs:962-1005 | after any run of edits from the empty trie the trie is canonical and answers as the map of the same run |
| TrieRoot.OrderDoesNotMatter | patricia_trie/src/triedbmut.rs:1047-1091 | two runs of edits end in the same trie if and only if they end in the same map |
| TrieRoot.EditKeeps | patricia_trie/src/triedbmut.rs:962-1005 | one edit, an empty value meaning removal, keeps trie and map in step |
| TrieNode.DecodeNodeOfRlp | patricia_trie/src/node.rs:48-82 | the node decoder finds in an encoded node exactly its key, value and references |
| TrieNode.ChildKinds | patricia_trie/src/triedbmut.rs:91-99 | a reference is data of 32 bytes exactly for hashed children, the child's own encoding for the others, and empty exactly for an absent child |
| TrieNode.InlinedExactly | patricia_trie/src/triedbmut.rs:908-929 | a node stands in its parent if and only if its encoding is shorter than its hash, and is referred to by hash otherwise |
| TrieNode.NodeParts | patricia_trie/src/node.rs:88-125 | a reader finds the hex-prefixed key first and the value or child second, or the sixteen children in order and the value behind them, and the empty node is the one byte 0x80 |
| TrieNode.SmallRlp | rlp/src/stream.rs:340-350 | keys and values of up to 2^30 keep every node's encoding below the encoder's 32-bit lengths |
| TrieNodeEncode.Encoded | patricia_trie/src/node.rs:88-125 | encoding a decoded node gives back the bytes it was decoded from |
| Nibbles.HexPrefixRoundTrip | patricia_trie/src/nibbleslice.rs:127-133 | reading a hex-prefixed key gives back its nibbles and its leaf mark, for odd and even lengths |
| Nibbles.HexPrefixNibbles | patricia_trie/src/nibbleslice.rs:190-200 | the nibbles of a hex-prefixed key are 2 for a leaf plus 1 for an odd length, a zero for an even length, and the key |
| Nibbles.NibbleSlice.Len | patricia_trie/src/nibbleslice.rs:138-142 | the length is the number of nibbles viewed, also of composed slices |
| Nibbles.NibbleSlice.Nib | patricia_trie/src/nibbleslice.rs:145-161 | the nibble at a position is the one the view stands for, on either side of a composition |
| Nibbles.NibbleSlice.Mid | patricia_trie/src/nibbleslice.rs:164-171 | a slice moved on stands for what remains of its first part, which is all that remains exactly when it has no second part |
| Nibbles.MidDropsSuffix | patricia_trie/src/nibbleslice.rs:164-171 | from 1, 2 followed by 3, 4, moving on by one nibble leaves 2 alone |
| Nibbles.FromEncoded | patricia_trie/src/nibbleslice.rs:127-133 | the slice behind a hex-prefixed string views the key without its flag |
| Nibbles.NewComposed | patricia_trie/src/nibbleslice.rs:93-100 | a composed slice stands for both first parts in order, which is all of both exactly when neither has a second part |
| Nibbles.CommonPrefixOf | patricia_trie/src/nibbleslice.rs:177-187 | the loop finds the longest common start |
| Nibbles.CommonPrefixUnique | patricia_trie/src/nibbleslice.rs:177-187 | the longest common start is the only length at which two keys agree and then part or end |
| Nibbles.EncodedLeftmost | patricia_trie/src/nibbleslice.rs:204-214 | the loop hex-prefixes the first n nibbles, or all when there are fewer |
| Nibbles.Encoded | patricia_trie/src/nibbleslice.rs:190-202 | the loop hex-prefixes the whole slice |
| NibbleVecs.NibbleVec.constructor | patricia_trie/src/nibblevec.rs:40-45 | a new vector is empty |
| NibbleVecs.NibbleVec.Push | patricia_trie/src/nibblevec.rs:63-76 | one nibble is added at the end, in a new byte or in the free half of the last |
| NibbleVecs.NibbleVec.Pop | patricia_trie/src/nibblevec.rs:79-97 | the last nibble is handed over and taken away; nothing from an empty vector |
| NibbleVecs.NibbleVec.From | patricia_trie/src/nibblevec.rs:112-120 | a vector from a slice holds the slice's nibbles |
| NibbleVecs.NibbleVec.At | patricia_trie/src/nibblevec.rs:54-60 | the nibble at a position is the one that was pushed there |
| TrieHash.SharedPrefixLen | triehash/src/lib.rs:40-45 | the length of the common start of two keys |
| TrieHash.HexPrefixEncode | triehash/src/lib.rs:176-201 | the hex-prefix encoding, the same as the slices' |
| TrieHash.Hash256Rlp | triehash/src/lib.rs:214-304 | the recursive split of the sorted list writes the encoding of the trie the list splits into, as one item of the stream |
| TrieHash.Hash256Aux | triehash/src/lib.rs:306-319 | a subtree is written as its own encoding when that is short and as its hash otherwise |
| TrieHash.GenTrieRoot | triehash/src/lib.rs:151-155 | the root of a sorted list is the hash of its trie's encoding |
| TrieBuild.BuildAnswers | triehash/src/lib.rs:214-304 | the trie a sorted list splits into answers exactly the list's entries |
| TrieBuild.BuildCanonical | triehash/src/lib.rs:214-304 | and it is canonical |
| TrieRoot.Collect | triehash/src/lib.rs:96-112 | collecting pairs leaves an ordered list of the map in which later pairs overwrite earlier ones |
| TrieRoot.ListTrieIsTheTrie | triehash/src/lib.rs:96-112 | the ordered list of a map splits into the one canonical trie of that map |
| TrieRoot.RootOfList | triehash/src/lib.rs:96-112 | the root of any list of pairs is the root every run of edits reaching the same map ends with |
| NodeStorages.NodeStorage.Alloc | patricia_trie/src/triedbmut.rs:226-234 | a slot in use is never handed out again; the slot freed first is reused |
| NodeStorages.NodeStorage.Destroy | patricia_trie/src/triedbmut.rs:237-242 | the node is handed over and its slot joins the end of the free list |
| TrieRuns.SlotReachedOnce | patricia_trie/src/triedbmut.rs:205-242 | no slot of a trie in memory is reached along two paths |
| TrieRuns.ReachableIsLive | patricia_trie/src/triedbmut.rs:226-234 | a slot reachable from the root exists and is not on the free list |
| TrieLoad.FromRlp | patricia_trie/src/triedbmut.rs:102-124 | a loaded node and the children inlined in it stand for the encoded trie, in slots of their own, and are unchanged since |
| TrieLoad.InlineOrHash | patricia_trie/src/triedbmut.rs:91-99 | a hashed reference stays a hash, an inlined node gets a slot |
| TrieLoad.Cache | patricia_trie/src/triedbmut.rs:338-345 | the node behind a hash is held in memory under that hash, standing for the same trie with the same references to the store |
| TrieDBMuts.TrieDBMut.InsertInspector | patricia_trie/src/triedbmut.rs:464-646 | at any node held in memory: the new node stands for the trie after insertion, the old value is reported, the node is restored exactly when nothing changed, and no reference to the store is given up twice |
| TrieDBMuts.TrieDBMut.InsertAt | patricia_trie/src/triedbmut.rs:440-461 | the same for a subtree behind a handle, loaded if need be |
| TrieDBMuts.TrieDBMut.PutBack | patricia_trie/src/triedbmut.rs:349-379 | a restored node keeps its hash, a replaced one puts it on the death row |
| TrieDBMuts.TrieDBMut.RemoveInspector | patricia_trie/src/triedbmut.rs:672-758 | at any node held in memory: what is left stands for the trie after removal, deletion is reported exactly when nothing is left, and the old value is reported |
| TrieDBMuts.TrieDBMut.RemoveAt | patricia_trie/src/triedbmut.rs:649-669 | the same for a subtree behind a handle |
| TrieDBMuts.TrieDBMut.FixBranchNode | patricia_trie/src/triedbmut.rs:768-812 | a branch that lost an entry is repaired as in the trie as a value, and never found empty |
| TrieDBMuts.TrieDBMut.ScanUsed | patricia_trie/src/triedbmut.rs:776-786 | the scan tells no child, the one child, or many |
| TrieDBMuts.TrieDBMut.FixExtensionNode | patricia_trie/src/triedbmut.rs:813-867 | an extension is merged with whatever is below it until a branch or a leaf ends it |
| TrieDBMuts.TrieDBMut.constructor | patricia_trie/src/triedbmut.rs:300-312 | a new trie is the empty map |
| TrieDBMuts.TrieDBMut.Existing | patricia_trie/src/triedbmut.rs:316-331 | a trie opened under a stored root is the map stored there |
| TrieDBMuts.FromExisting | patricia_trie/src/triedbmut.rs:316-331 | a root the store does not hold is refused, and any other is opened as the map stored there |
| TrieDBMuts.TrieDBMut.Insert | patricia_trie/src/triedbmut.rs:962-983 | the trie becomes the map with the key set, or without it for an empty value, the old value is returned, and the root is the old one until the next commit unless nothing is left; references are only given up, the death row gains exactly the hashes of those, and the stored root is among them when the map changes |
| TrieDBMuts.TrieDBMut.Remove | patricia_trie/src/triedbmut.rs:985-1005 | the trie becomes the map without the key, the old value is returned, and the root is the old one until the next commit unless nothing is left; references and death row move as with an insertion |
| TrieDBMuts.TrieDBMut.Get | patricia_trie/src/triedbmut.rs:957-960 | the map's value for a key of any length, whether the nodes are in memory, cached or still in the store |
| TrieDBMuts.TrieDBMut.LookupFrom | patricia_trie/src/triedbmut.rs:382-437 | the walk in memory, and from the first hash on in the store, answers as the trie does |
| TrieDBMuts.TrieDBMut.IsEmpty | patricia_trie/src/triedbmut.rs:945-955 | true exactly for the empty map |
| TrieDBMuts.TrieDBMut.Purge | patricia_trie/src/triedbmut.rs:877-881 | every hash on the death row loses exactly one reference, no other count and no value changes, and the row is empty |
| TrieDBMuts.TrieDBMut.Commit | patricia_trie/src/triedbmut.rs:874-905 | the map stays, the root is that of its trie, all of it is in the store, and every count is settled: one less for a hash on the death row, one more for each node that was new, and no other change |
| TrieCounts.SettledTakes | patricia_trie/src/triedbmut.rs:877-905 | a commit takes exactly one reference from a hash on the row that the trie does not contain, and none from any other hash |
| TrieStates.EditGivesUp | patricia_trie/src/triedbmut.rs:345-379 | what an edit gives up is on the row, and with a changed map the hash of the stored root |
| TrieCounts.LostExactly | patricia_trie/src/triedbmut.rs:345-379 | an edit loses track of a reference if and only if it gives up more references to one hash than the row, a set, can note |
| TrieTwins.TwinLeaks | patricia_trie/src/triedbmut.rs:345-379 | two keys with one long value committed, one removed, committed again: the leaf both had is in the trie no more, and the store keeps a reference to it |
| TrieWrites.CommitNode | patricia_trie/src/triedbmut.rs:908-929 | a subtree's reference goes to its parent's stream and the subtree to the store, which loses nothing |
| TrieWrites.IntoRlp | patricia_trie/src/triedbmut.rs:127-165 | a node in memory is encoded as its trie is, with everything below it stored |
| TrieStates.EditSound | patricia_trie/src/triedbmut.rs:440-461 | one edit leaves the state sound: ownership, shape, meaning and enough references in the store |
| TrieStates.DrainedSound | patricia_trie/src/triedbmut.rs:877-881 | taking one reference for each hash on the death row never takes one the trie needs |
| TrieCommit.EnoughBudget | patricia_trie/src/triedbmut.rs:349-379 | an edit that gives up no reference twice leaves enough of each |
| TrieRuns.CompareRoots | patricia_trie/src/triedbmut.rs:1047-1091 | the committed root and the root of the key-value list of the same map are equal |
| TrieRuns.RunAndCommit | patricia_trie/src/triedbmut.rs:1047-1091 | after any run of edits from an empty trie and a commit, the root is that of the run's map and the store answers every key under it |
| TrieRuns.RunSteps | patricia_trie/src/triedbmut.rs:874-1005 | any run of edits, commits and reopenings under the root: the trie is the map of all edits, while root and store serve the map of the last commit, or the empty map as soon as an edit leaves nothing; and beyond what it started with the store has at least one reference for each occurrence of a node in the last committed trie, and exactly that many unless a stored trie with two equal nodes was edited |
| TrieRuns.ReopenStep | patricia_trie/src/triedbmut.rs:1008-1010 | a trie that is dropped, and so committed, and opened again under its root is the same map with the same root, all of it in the store |
| TrieRuns.CommitServes | patricia_trie/src/triedbmut.rs:874-929 | after a commit every key is looked up from the new root in the store as it was answered in memory |
| TrieLookup.LookUpStored | patricia_trie/src/lookup.rs:46-103 | a lookup in a store that holds a trie answers as the trie does, over hashed and inlined nodes |
| TrieLookup.TrieReaderReadsBack | patricia_trie/src/node.rs:48-82 | the node decoder and the hash test read back every encoded node and reference |
| TrieLookup.WalkNode | patricia_trie/src/lookup.rs:66-98 | the inner loop walks through inlined nodes to an answer or to the next hash |
| TrieLookup.LookUpRecorded | patricia_trie/src/lookup.rs:46-103 | the outer loop answers as specified and records exactly the nodes it visits from the recorder's depth on |
| TrieLookup.Recorder.Note | patricia_trie/src/recorder.rs:67-77 | a visit is kept exactly when it is deep enough |
| TrieLookup.Recorder.Drain | patricia_trie/src/recorder.rs:80 | all records are handed over and the recorder starts afresh |
| TrieLookup.RecorderKeeps | patricia_trie/src/recorder.rs:67-77 | a recorder keeps all visited nodes in order, but as many fewer at the start as its minimal depth says |
| TrieLookup.ReplayAgrees | patricia_trie/src/lookup.rs:46-103 | a store that holds the visited nodes answers as the whole store did |
| TrieLookup.RecordedLookupIsProof | patricia_trie/src/recorder.rs:67-80 | the nodes recorded from depth 0 on give the answer by themselves, present or absent |
| TrieLookup.NoForgedAnswer | patricia_trie/src/lookup.rs:46-103 | two stores of honestly hashed nodes never give two answers for one root: one of them misses a node, or they agree |
| TrieRuns.ProofOfAnswer | patricia_trie/src/recorder.rs:67-80 | a recorded lookup proves what the map says of a key, and no honest store says otherwise |
| TrieEntries.EntriesListMap | patricia_trie/src/triedb.rs:353-425 | from left to right a trie lists its map: each pair once, in strictly increasing byte order |
| TrieEntries.EntriesOrdered | patricia_trie/src/triedb.rs:353-425 | entries are listed in strictly increasing nibble order |
| TrieEntries.AnswerListed | patricia_trie/src/triedb.rs:353-425 | every answer of the trie is listed |
| TrieIter.TrieDBIterator.constructor | patricia_trie/src/triedb.rs:224-233 | a new iterator has the whole trie before it |
| TrieIter.TrieDBIterator.GetRawOrLookup | patricia_trie/src/triedb.rs:139-151 | a hash is looked up, anything else is the node itself |
| TrieIter.TrieDBIterator.DescendInto | patricia_trie/src/triedb.rs:312-323 | a node joins the trail and its key the nibbles |
| TrieIter.TrieDBIterator.Key | patricia_trie/src/triedb.rs:326-337 | the loop packs the nibbles in pairs |
| TrieIter.TrieDBIterator.Round | patricia_trie/src/triedb.rs:363-423 | one round yields the next entry or changes nothing that is to come, and brings the end nearer |
| TrieIter.TrieDBIterator.Next | patricia_trie/src/triedb.rs:353-425 | the next entry is yielded and no other is lost; None exactly at the end, and from then on |
| TrieIter.IterateAll | patricia_trie/src/triedb.rs:353-425 | run to its end the iterator lists the map in order, each pair once |
| RlpStreams.RlpStream.NewList | rlp/src/stream.rs:52-56 | a new stream with one list announced |
| RlpStreams.RlpStream.BeginList | rlp/src/stream.rs:116-138 | a list is opened with one byte reserved, an empty one is appended at once |
| RlpStreams.RlpStream.NoteAppended | rlp/src/stream.rs:278-305 | items are counted in the innermost list; a full list becomes one item of the list around it, and so on outwards |
| RlpStreams.RlpStream.FinishList | rlp/src/stream.rs:340-363 | the prefix inserted before a finished payload leaves the outer lists' recorded positions right |
| RlpStreams.RlpStream.InsertSize | rlp/src/stream.rs:340-350 | the shortest big-endian digits of the 32-bit length are inserted, and nothing else moves |
| RlpStreams.RlpStream.InsertListPayload | rlp/src/stream.rs:352-363 | the reserved byte becomes the list prefix, with inserted length bytes for long payloads |
| RlpStreams.RlpStream.EncodeValue | rlp/src/stream.rs:366-386 | a byte string's encoding is pushed, its length going through 32 bits |
| RlpStreams.RlpStream.AppendRaw | rlp/src/stream.rs:177-186 | encoded bytes are appended and counted as so many items |
| RlpStreams.RlpStream.AppendEmptyData | rlp/src/stream.rs:165-173 | one item of no bytes is appended |
| RlpStreams.RlpStream.Append | rlp/src/stream.rs:71-79 | for every item tree the calls leave the recursive encoding in the buffer, counted once in the list around it |
| RlpStreams.Header32Exact | rlp/src/stream.rs:340-350 | below 2^32 the written prefix is the specified one |
| RlpRoundTrip.DecodeUndoesEncode | rlp/src/untrusted_rlp.rs:174-232 | reading an encoded tree through the cursor gives back the tree |
| RlpRoundTrip.EncodeInjective | rlp/src/stream.rs:71-79 | different trees have different encodings |
| RlpRoundTrip.EncodedForm | rlp/src/stream.rs:352-386 | a single byte below 0x80 stands for itself, everything else has one byte for its kind and a length up to 55, or one for its kind and the number of length bytes, then the length without leading zeros, then the content |
| RlpRoundTrip.EncodeShortest | rlp/src/stream.rs:352-386 | no bytes that are read as a tree are fewer than its encoding |
| RlpRoundTrip.DecodeValueExactly | rlp/src/untrusted_rlp.rs:360-400 | bytes are read as a byte string if and only if they start with its short encoding, or with a long form of it, which refuses a single byte below 0x80 behind a header |
| RlpRoundTrip.ItemInfoExactly | rlp/src/untrusted_rlp.rs:78-95 | a cursor accepts exactly single bytes below 0x80 and complete items of either kind whose length has no leading zero |
| RlpRoundTrip.AtEncoded | rlp/src/untrusted_rlp.rs:202-232 | the element at a position of an encoded list is exactly that element's encoding, an error behind the end, and the count is right |
| RlpRoundTrip.DecodeValueEncoded | rlp/src/untrusted_rlp.rs:360-401 | decoding an encoded byte string gives it back |
| RlpRoundTrip.UintRoundTrip | rlp/src/impls.rs:120-157 | every unsigned integer of up to eight bytes is decoded to itself, from its shortest digits |
| RlpRoundTrip.UintDecodedIsShortest | rlp/src/impls.rs:133-157 | whatever bytes are accepted as an integer, with a short header or a long one, hold its shortest digits, and it fits the width |
| RlpRoundTrip.UintDecodedInjective | rlp/src/impls.rs:133-157 | two accepted byte strings give the same integer exactly when they hold the same digits |
| RlpDecoder.AtIsIndependentOfHistory | rlp/src/untrusted_rlp.rs:202-232 | earlier calls never change what at answers, if and only if the index is not the cache's sentinel 2^64-1 or the data is no list with a readable header |
| RlpDecoder.SentinelForgotten | rlp/src/untrusted_rlp.rs:202-232 | the empty list asked at 2^64-1: a fresh cursor gives the list itself, one that was asked for element 0 an error |
| RlpDecoder.AtCachedIsAt | rlp/src/untrusted_rlp.rs:202-232 | with any cache the calls can leave, below the sentinel the answer is a fresh cursor's |
| RlpDecoder.UntrustedRlp.ElementAt | rlp/src/untrusted_rlp.rs:202-232 | the method with its offset cache answers as a fresh cursor below the sentinel |
| RlpDecoder.UntrustedRlp.CountElements | rlp/src/untrusted_rlp.rs:174-188 | the method with its count cache tells the number of elements, walking at most once |
| RlpDecoder.SkipItems | rlp/src/untrusted_rlp.rs:289-296 | the loop skips the given number of items or reports the first that cannot be read |
| RlpDecoder.AccumulateDigits | rlp/src/impls.rs:15-30 | shifting digits into place accumulates the big-endian number |
| HashStore.MemoryDB.Get | db/core/src/memorydb.rs:133-142 | a value is found exactly when its count is positive, the empty trie's always |
| HashStore.MemoryDB.Insert | db/core/src/memorydb.rs:162-180 | one reference more; the value is replaced only where none was referenced |
| HashStore.MemoryDB.Emplace | db/core/src/memorydb.rs:182-199 | the same under a key given by the caller |
| HashStore.MemoryDB.Remove | db/core/src/memorydb.rs:201-215 | one reference less, possibly below zero |
| HashStore.MemoryDB.Raw | db/core/src/memorydb.rs:81-86 | what is held of a key, whatever its count |
| HashStore.MemoryDB.RemoveAndPurge | db/core/src/memorydb.rs:93-111 | one reference less; the last one takes the entry away and returns its value |
| HashStore.MemoryDB.Purge | db/core/src/memorydb.rs:69 | no count and no answer changes, every entry left counts and is as it was |
| HashStore.PurgeKeeps | db/core/src/memorydb.rs:69 | only dropping the entries of count zero does that, and doing it once is enough |
| HashStore.MemoryDB.Drain | db/core/src/memorydb.rs:72-74 | all entries are handed over and the store is empty |
| HashStore.MemoryDB.Consolidate | db/core/src/memorydb.rs:114-130 | entries are merged in any order: counts add up and a debt takes the other's value |
| HashStore.DbConsolidate | db/core/src/memorydb.rs:114-130 | after merging each count is the sum of both |
| HashStore.InsertReadable | db/core/src/memorydb.rs:162-180 | an inserted value is readable under its hash, and nothing readable is lost |
| HashStore.RemoveAfterInsert | db/core/src/memorydb.rs:201-215 | a removal takes back an insertion: every count and every answer is as before |
| JournalRecords.RecordKeyInjective | db/journaldb/src/overlayrecentdb.rs:326-330 | two records have the same key only for the same era and index |
| JournalRecords.RecordKeyParts | db/journaldb/src/overlayrecentdb.rs:326-330 | a record's key holds the era, the index and the padding, in this order |
| JournalRecords.RecordKeyLength | db/journaldb/src/overlayrecentdb.rs:156-162 | a record's key has 14 to 30 bytes, more than the marker's and fewer than a node's |
| JournalRecords.EraValueRoundTrip | db/journaldb/src/overlayrecentdb.rs:332-336 | the marker is read back as the era that was written |
| JournalRecords.RecordParts | db/journaldb/src/overlayrecentdb.rs:301-326 | a reader finds a record's id, insertions and deletions at their positions |
| JournalCounts.HeldTake | db/journaldb/src/overlayrecentdb.rs:395-416 | what the journal inserts in all is the sum over its eras, in whatever order they are taken |
| JournalCounts.EmplaceReflects | db/journaldb/src/overlayrecentdb.rs:312-323 | counting an insertion keeps the overlay's counts those of the journal, and the size by the value's length when the key is new |
| JournalCounts.PurgeReflects | db/journaldb/src/overlayrecentdb.rs:408-416 | taking an insertion back never meets a missing key, and the size drops by the value's length with the last one |
| JournalCounts.ReflectsUnique | db/journaldb/src/overlayrecentdb.rs:127-136 | the overlay is determined by the insertions journalled |
| JournalStates.MarkedNodes | db/journaldb/src/overlayrecentdb.rs:395-424 | marking keeps every live node on disk, and leaves no other node there unless a journalled block inserts it again or a discarded block inserted it |
| JournalStates.MarkedRecords | db/journaldb/src/overlayrecentdb.rs:374-383 | marking deletes the era's records and no other |
| JournalStates.AddedOnDisk | db/journaldb/src/overlayrecentdb.rs:326-336 | journalling adds one record and moves the marker up only for a later era |
| Journals.OverlayRecentDB.constructor | db/journaldb/src/overlayrecentdb.rs:115-125 | opening any written disk recovers the unbroken run of eras up to the latest with its overlay counts, size and least era, which is the whole journal exactly when no era below the latest is missing, and is sound in either case: what is not found counts as stranded, its records as lost |
| Journals.OverlayRecentDB.JournalUnder | db/journaldb/src/overlayrecentdb.rs:279-353 | the transaction becomes one entry with exactly the keys gained and lost, every insertion counted in the overlay, its record and for a later era the marker are all that the batch gains, the state stays sound, and every read stays as it was but for pending nodes that are not on disk, which are forgotten first; the count returned is that of the keys changed, and the earliest era moves down to an earlier one |
| Journals.OverlayRecentDB.MarkCanonical | db/journaldb/src/overlayrecentdb.rs:355-432 | the era leaves the journal, the live set gains the canonical block's insertions and loses its deletions, the state stays sound, and every read stays as it was but for what only the era's other blocks inserted; while eras are left the earliest era is set to the next one |
| Journals.OpsOfBlock | db/journaldb/src/overlayrecentdb.rs:303 | the count for a block's entry is the number of keys with a balance other than zero, cast to 32 bits |
| Journals.EarliestAdded | db/journaldb/src/overlayrecentdb.rs:338-341 | journalling keeps the earliest era the least one of the journal |
| Journals.EarliestMarked | db/journaldb/src/overlayrecentdb.rs:426-429 | a mark does so if and only if it marks the era right before the least one that is left, and none before it |
| Journals.OverlayRecentDB.PurgeOverlay | db/journaldb/src/overlayrecentdb.rs:408-416 | all of the era's insertions are taken back from the counts and the size |
| Journals.OverlayRecentDB.DeleteCanonical | db/journaldb/src/overlayrecentdb.rs:418-422 | canonical deletions reach the disk except where the overlay still counts the key |
| Journals.OverlayRecentDB.PutCanonical | db/journaldb/src/overlayrecentdb.rs:403-407 | canonical insertions reach the batch and are pending until written |
| Journals.KeyValueDB.Write | db/core/src/traits/kvdb.rs:47-51 | a batch is applied in order and used up |
| Journals.OverlayRecentDB.WriteBatch | db/core/src/traits/kvdb.rs:47-51 | writing a batch in order keeps the state sound, ends all hiding, and changes no read but of nodes dropped by a canonical block |
| Journals.OverlayRecentDB.Flush | db/journaldb/src/overlayrecentdb.rs:434 | forgetting the pending overlay keeps the state sound and changes no read but of pending nodes, and with all written only of those a canonical block dropped; what is forgotten before it is written is hidden until the write |
| Journals.OverlayRecentDB.Get | db/journaldb/src/overlayrecentdb.rs:488-503 | a read finds the transaction's, overlay's, pending or disk value, in a sound state the right one, and never misses a journalled key or a live one that is not hidden |
| Journals.OverlayRecentDB.Insert | db/journaldb/src/overlayrecentdb.rs:507 | an insertion goes to the transaction only |
| Journals.OverlayRecentDB.Emplace | db/journaldb/src/overlayrecentdb.rs:508-510 | the same under a given key |
| Journals.OverlayRecentDB.Remove | db/journaldb/src/overlayrecentdb.rs:511 | a removal goes to the transaction only |
| Journals.OverlayRecentDB.Consolidate | db/journaldb/src/overlayrecentdb.rs:464 | another transaction is merged into this one |
| JournalPromises.ReadsRight | db/journaldb/src/overlayrecentdb.rs:488-503 | no read is wrong, and a node is found exactly when the transaction, the overlay's counts, the pending overlay or the disk has it, be the journal whole or recovered in part |
| JournalPromises.PromisedRead | db/journaldb/src/overlayrecentdb.rs:488-503 | in a sound state every journalled key is read, and every live one that is not hidden |
| JournalPromises.BlockReads | db/journaldb/src/overlayrecentdb.rs:279-353 | counting a block's insertions in the overlay takes away no read, those of the transaction included |
| JournalPromises.MarkReads | db/journaldb/src/overlayrecentdb.rs:386-422 | a mark takes away no read, but of keys that only discarded blocks of the era inserted |
| JournalPromises.WriteReads | db/journaldb/src/overlayrecentdb.rs:488-503 | a write takes away no read, but of keys a canonical block dropped |
| JournalPromises.ForgetReads | db/journaldb/src/overlayrecentdb.rs:434 | forgetting the pending overlay takes away no read but of pending nodes, and of those only dropped ones when all is written |
| JournalPromises.ForgetExactly | db/journaldb/src/overlayrecentdb.rs:434 | forgetting the pending overlay changes a read if and only if the node was pending and is neither in the transaction, nor counted in the overlay, nor on disk |
| JournalPromises.ReopenReads | db/journaldb/src/overlayrecentdb.rs:127-136 | opening again takes away no read, but of keys not journalled, of dropped nodes still pending, and of keys that only the lost part of the journal inserted |
| JournalPromises.MarkKeeps | db/journaldb/src/overlayrecentdb.rs:386-422 | a mark makes a live or journalled key lose that promise only by a canonical deletion or when only discarded siblings inserted it |
| JournalPromises.OnlyBlockStrandsNothing | db/journaldb/src/overlayrecentdb.rs:386-402 | with one block in an era nothing is left behind by discarded blocks |
| JournalPromises.EmptyDisk | db/journaldb/src/overlayrecentdb.rs:115-125 | an empty disk is a sound database without blocks |
| Journals.Reopen | db/journaldb/src/overlayrecentdb.rs:127-136 | a reopened database has the same journal exactly when no era below the latest is missing, then with the same overlay counts, size and stranded set; it is sound in any case, and reads are as before but for keys not journalled, dropped nodes still pending, and keys only the lost part of the journal inserted |
| JournalRecovery.ReadOverlay | db/journaldb/src/overlayrecentdb.rs:144-220 | reading back finds the unbroken run of eras up to the latest, with its counts, its size and its least era |
| JournalRecovery.RecoveryIsExact | db/journaldb/src/overlayrecentdb.rs:144-220 | everything is recovered if and only if no era between a journalled one and the latest is missing |
| JournalGap.GapLosesBlock | db/journaldb/src/overlayrecentdb.rs:203-207 | two blocks journalled in eras 1 and 3 of an empty disk: what the first inserted is read before closing the database and not after opening it again |
| JournalGap.FlushHidesNode | db/journaldb/src/overlayrecentdb.rs:434 | a block journalled on an empty disk, written, and marked: what it inserted is read, not read after a flush, and read again once the batch is written |
| JournalRuns.Run | db/journaldb/src/overlayrecentdb.rs:279-434 | any run of blocks with forks, marks, writes and flushes, stopped and opened again at any time, is in the state its steps alone say: journal, lost eras, latest era, live, stranded and pending sets, with the state of the last write after a restart; and between any two steps every read stays as it was but for the keys that the step is said to make unreadable |
| JournalRuns.RunServes | db/journaldb/src/overlayrecentdb.rs:355-432 | in any such state every live key is on disk once all is written, any other node there is still counted or was left by a discarded or lost block, and journalled keys and live ones that are not hidden are readable at any time |
| JournalRuns.ReadThroughRun | db/journaldb/src/overlayrecentdb.rs:279-503 | what is read once in a run is read from then on with the same value, unless a step in between is said to make it unreadable |
| JournalRuns.WrittenIsKept | db/journaldb/src/overlayrecentdb.rs:127-136 | once all is written, a restart finds the present journal, latest era and live set, but for eras behind a missing one |
| JournalRuns.SingleRunStrandsNothing | db/journaldb/src/overlayrecentdb.rs:386-402 | a run with one block per era, the one that is marked, and no restart with an era missing leaves nothing behind |
| JournalRuns.RunWithoutForks | db/journaldb/src/overlayrecentdb.rs:355-432 | so after such a run the nodes on disk are the live ones, all of them, and those the overlay still counts |
| Blake2bCompress.InitialStateOfRfc | blake2b/src/blake2b_impl.rs:68-86 | mixing in the words of the parameter block gives the initial state that section 3.3 of RFC 7693 writes out |
| Blake2bCompress.MixParams | blake2b/src/blake2b_impl.rs:71-76 | the loop mixes each of the eight parameter words into its constant |
| Blake2bs.Blake2b.constructor | blake2b/src/blake2b_impl.rs:68-86 | a new hash has taken in nothing and starts from the RFC's state for its digest length |
| Blake2bs.Blake2b.NewWithKey | blake2b/src/blake2b_impl.rs:88-113 | a keyed hash has taken in the key, padded to a block, and starts from the RFC's state for its digest and key lengths |
| Blake2bs.Blake2b.WithParams | blake2b/src/blake2b_impl.rs:117-134 | a hash from a whole parameter block starts from the constants with that block mixed in |
| Blake2bs.Blake2b.Update | blake2b/src/blake2b_impl.rs:144-171 | any bytes are taken in behind the others; a block is compressed only when more than two are there, so the last one is always still buffered |
| Blake2bs.Blake2b.Finalize | blake2b/src/blake2b_impl.rs:173-196 | the state becomes the one-shot hash of all bytes taken in, and as many of its bytes as fit are written out |
| Blake2bCompress.OutputByte | blake2b/src/blake2b_impl.rs:280-286 | byte i of the digest is byte i mod 8 of word i / 8, the low byte first |
| Blake2bCompress.LoadByte | blake2b/src/blake2b_impl.rs:272-278 | byte i of a message word, the low byte first, is byte i of what it was read from |
| Blake2bs.Blake2b.CompressFirst | blake2b/src/blake2b_impl.rs:156-162 | the first buffered block is compressed and the second moved up |
| Blake2bs.CounterStep | blake2b/src/blake2b_impl.rs:198-201 | the two words with their carry count the bytes modulo 2^128 |
| Blake2bs.FedLast | blake2b/src/blake2b_impl.rs:173-191 | compressing the padded last block as the last is the one-shot hash |
| Blake2bs.HashParts | blake2b/src/blake2b_impl.rs:144-196 | for every digest length, key and way of cutting the input, the bytes written are the hash of section 3.3 of RFC 7693 of the whole |
| Blake2bs.KeyedHash | blake2b/src/blake2b_impl.rs:88-196 | the same with the compression function of RFC 7693 |
| Blake2bs.Hash256 | blake2b/src/blake2b_impl.rs:136-142 | the 32 bytes are the hash of digest length 32 without a key |
| Blake2bs.Blake2b256 | blake2b/src/blake2b_impl.rs:136-142 | the digest used throughout is that of RFC 7693 with 32 bytes and no key |
| Blooms.Accrue | ethbloom/src/lib.rs:148-177 | the three bits are set in place, which is combining with the input's own bits |
| Blooms.AccruedBits | ethbloom/src/lib.rs:148-177 | a bit is set afterwards if and only if it was before or is one of three: the low eleven bits of the first, second and third pair of hash bytes |
| Blooms.AccruedIsOr | ethbloom/src/lib.rs:148-177 | accruing is an OR with the bits of the input alone |
| Blooms.AccrueBloom | ethbloom/src/lib.rs:180-188 | the other bloom is combined into the array byte by byte |
| Blooms.ContainsBloom | ethbloom/src/lib.rs:204-217 | true exactly when every bit of the other bloom is set |
| Blooms.ContainsBits | ethbloom/src/lib.rs:204-217 | containing is having every bit of the other |
| Blooms.ContainsInput | ethbloom/src/lib.rs:131-134 | true exactly when the input's three bits are set |
| Blooms.ContainsOr | ethbloom/src/lib.rs:204-217 | a combination is contained exactly when both parts are |
| Blooms.ComputeLogBloom | common_types/src/log_entry.rs:61-68 | accruing the address and the topics in place gives the log's bloom |
| Blooms.ComputeReceiptBloom | common_types/src/receipt.rs:48-57 | folding the logs' blooms gives the receipt's bloom |
| Blooms.LogBloomContains | common_types/src/log_entry.rs:61-68 | a log's bloom contains its address's bits and those of every topic |
| Blooms.ReceiptContains | common_types/src/receipt.rs:48-57 | a receipt's bloom contains the bloom of each of its logs |
| Blooms.LogBloomBits | common_types/src/log_entry.rs:61-68 | only the address and the topics set bits in a log's bloom |
| Blooms.ReceiptBits | common_types/src/receipt.rs:48-57 | only its logs set bits in a receipt's bloom |
| Blooms.MatchIsFound | common_types/src/filter.rs:77-126 | a log the filter matches fits one of the filter's blooms if and only if the filter has no empty topic list |
| Blooms.MatchesAChoice | common_types/src/filter.rs:106-126 | a filter without an empty topic list matches a log if and only if the log fits one choice of an address and a topic at each position |
| Blooms.PossibilitiesAreChoices | common_types/src/filter.rs:77-104 | the possible blooms are exactly those of the choices, each with the bits of what was chosen |
| Blooms.NoMissedLogs | common_types/src/filter.rs:77-126 | then some bloom of the filter is in the bloom of every receipt that holds the log |
| Blooms.ComputePossibilities | common_types/src/filter.rs:77-104 | cloning and accruing address by address and topic by topic gives one bloom for each choice, in order |
| Blooms.FilterFindsLog | common_types/src/filter.rs:77-126 | with the digest's own bits a matching log is found by its bloom, and by that of any receipt holding it, exactly when no topic list is empty |
| Blooms.FilterAndReceipt | common_types/src/filter.rs:77-126 | the blooms as filter and receipt compute them meet for every matching log, exactly when no topic list is empty |
| Blooms.EmptyTopicMisses | common_types/src/filter.rs:88-104 | a filter with an empty topic list matches a log and yet asks for no bloom |

## Left out

- TrieIter.TrieDBIterator: `seek` is not modelled; its two descriptions disagree and its mismatch cases do not compare order.
- TrieDBMuts.TrieDBMut: lookup errors in the middle of an edit, `hash_count`, logging, and the implicit commit on drop as such, which is `Commit`.
- TrieDBMuts.TrieDBMut.Existing: requires a complete stored trie below the root; the test of the root itself is `FromExisting`.
- TrieDBMuts.TrieDBMut.Commit: slots below a cached node are not reclaimed, as in the source, and nothing is said of how many slots stay in use.
- Nibbles.NibbleSlice.Mid: moving on past the first part is excluded, since the source's lengths would underflow. In the tries' methods a slice is the sequence of nibbles it stands for.
- TrieLookup.LookUpRecorded: malformed nodes end in `Malformed` where the source panics; the bound on the depth is a parameter.
- TrieRoot.Collect: the ordered map is insertion into an ordered list.
- TrieIter.TrieDBIterator.Next: nodes that are missing from the store are not modelled; the store is complete.
- RlpStreams.RlpStream: unbounded lists, `append_raw_checked`, `estimate_size`, `clear` and derived encoders.
- RlpDecoder: cursors into nested items share no state with their parent, so an element is its bytes; `Display` and the conversions of strings, booleans, options and big integers are left out.
- RlpRoundTrip.DecodeUndoesEncode: decode-then-encode is not stated, as long length forms of short payloads are accepted by the decoder.
- Journals.OverlayRecentDB.MarkCanonical: says nothing of `earliestEra`, which marking sets to an era that may have no entry; after a restart it is the least recovered era.
- Journals.OverlayRecentDB.JournalUnder: excludes eras whose records a restart left unread on disk, where the code would overwrite old records and mix them with new ones.
- Journals.OverlayRecentDB: `state`, which searches by prefix, `inject`, `keys`, memory accounting, cloned handles and locking are left out.
- Journals.KeyValueDB: the disk is a map and batches are written whole and in order; a database may stop between two writes but not in the middle of one.
- Blake2bCompress: the compression function is transcribed as functions without loops; its constants, schedule and rotations are those of sections 2.6, 2.7 and 3.1 of RFC 7693, and nothing further is proved of its inner arithmetic.
- Blake2bs.Blake2b: the 64-bit counter words wrap around, as in a build without overflow checks.
- Blooms: serialization, display, and the bloom's construction macros.
- `SecTrieDB`, `FatDB`, `ArchiveDB`, `accounts`, and the storage drivers are not part of this model.
