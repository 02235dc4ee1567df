# Linked-list unlocking solver, modelled in Dafny

The solver of the smart-contract challenge takes a deployed `GateLock`
contract and a read-only state provider. Its `solve` function:

1. wraps the provider in revm's write-buffering `CacheDB`;
2. checks with `basic_ref` on that overlay that the contract's account exists;
3. walks a singly linked list kept in the contract's value map, at
   storage slot 2, starting from key 0. For every node, it:
   - computes the node's storage slot with the Solidity mapping rule
     `keccak256(pad32(key) ++ pad32(2))`;
   - reads the packed 256-bit word through the overlay;
   - stops at the first zero word;
   - otherwise records the key and writes the word back with bit 224, the
     unlocked flag, set;
   - picks the next key from the word's first value (bits 0..63) when that
     value is even, and from its second value (bits 64..223) when it is odd;
4. hands the recorded keys and the overlay to the contract's
   `isSolved(uint256[])` call.

The project has six modules:

- `Wrappers` (`wrappers.dfy`): the `Result` datatype that carries each error.
- `Bits` (`bits.dfy`): unsigned words as bounded naturals, plus the `&`, `|`,
  `>>` and `<<` that the solver applies to them.
- `StorageSlot` (`storage_slot.dfy`): `calculate_storage_slot`, with the
  64-byte big-endian preimage written out. Keccak-256 is a parameter.
- `PackedRecord` (`packed_record.dfy`):
  - decoding of the two values and the flag;
  - setting the flag;
  - the next-key rule;
  - `Pack`, a reference encoder of the record layout that the decoders are
    proved against.
- `StateOverlay` (`state_overlay.dfy`): the provider, as a value, and
  `CacheDb`, a class whose pending writes are a `map` field that its methods
  update. `Provider` stands for the external `DatabaseRef` behind the
  overlay: the accounts it knows, the addresses whose account lookup fails,
  the storage words it holds and the storage reads that fail.
- `Solution` (`solution.dfy`):
  - `Walk`, the loop, as a method with a `while` loop over a `CacheDb`;
  - `Solve`;
  - the functions that specify both methods;
  - the lemmas about those functions.

`Walk` is proved against a specification stated on the overlay as it was
before the walk began. `KeyAt(e, ov, i)` is the i-th key of the chain
starting at key 0. `EndIndex` is the position of the first key whose word
is zero or cannot be read. `Flagged(e, ov, n)` is the overlay after the first
n flag writes.

The environment `Env` carries three things: the slot function, the next-key
rule, and the provider with the contract address. The walk lemmas hold for
any slot function. They also hold for any next-key rule, except the lemmas
about reads through the flagged overlay (`FlaggedReadsAgree`, `WalkStep`,
`WalkStop`, `FlaggedKeysAgree`, `RewalkSameResult`). Those need a rule that
ignores the flag (`FlagBlind`). `WalkEnv` fixes the slot function to
`calculate_storage_slot` over mapping slot 2 and the rule to `NextKey`, which
`WalkEnvFlagBlind` shows ignores the flag. `Walk` and `Solve` are stated on
`WalkEnv`.

Termination is not claimed unconditionally. The source loop has no bound and
stops only on a zero word, a failed read or a failed write. The model's
write never fails (see the `Solution.WriteStorage` line under "## Left
out"). So `Walk` and `Solve` require
`Terminates`: some key of the chain has a zero or unreadable word.
`CycleNeverEnds` and `SelfLinkedStartNeverEnds` show that a list which links
back to one of its own nodes never satisfies it.

## Model

| member | source | states |
|---|---|---|
| StorageSlot.ToBeBytes32 | bin/solution.rs:35-36 | `to_be_bytes::<32>()` gives 32 bytes that read back, big-endian, as the number |
| StorageSlot.FromBeBytes32 | bin/solution.rs:37 | `from_be_bytes` of a digest is the number whose 32-byte encoding is that digest (inverse of `ToBeBytes32`) |
| StorageSlot.BeBytesRoundTrip | bin/solution.rs:35-37 | writing a number that fits in n bytes big-endian and reading it back gives the number |
| StorageSlot.FromBeBytesRoundTrip | bin/solution.rs:35-37 | reading bytes as a big-endian number and writing it back at the same width gives the bytes |
| StorageSlot.Preimage | bin/solution.rs:33-36 | the hashed buffer is 64 bytes; bytes 0..31 decode to the key and bytes 32..63 to the mapping slot |
| StorageSlot.PreimageAsNumber | bin/solution.rs:33-36 | read as one 512-bit big-endian number, the buffer is key * 2^256 + mapping slot |
| StorageSlot.PreimageInjective | bin/solution.rs:33-36 | two buffers are equal exactly when both their keys and their mapping slots are equal |
| StorageSlot.CalculateStorageSlot | bin/solution.rs:32-38 | the slot's 32-byte big-endian encoding is the hash of the buffer |
| StorageSlot.SharedSlotIsHashCollision | bin/solution.rs:28-38 | two different keys of one mapping share a slot only if the hash collides on two different buffers |
| PackedRecord.SecondMask | bin/solution.rs:147 | `(1 << 160) - 1` is 2^160 - 1 |
| PackedRecord.FlagMask | bin/solution.rs:150 | `1 << 224` is 2^224, with no bit shifted out |
| PackedRecord.ToU64 | bin/solution.rs:145 | the `to::<u64>()` narrowing, defined only on values below 2^64; `FirstValue` shows its argument always is |
| PackedRecord.FirstValue | bin/solution.rs:145 | the first value is the word mod 2^64, so the `to::<u64>()` narrowing never fails |
| PackedRecord.SecondValue | bin/solution.rs:147 | the second value is (word / 2^64) mod 2^160, below 2^160 |
| PackedRecord.SetFlag | bin/solution.rs:150 | the result has bit 224 set and every other bit as in the word; it is the word, or the word plus 2^224 when the flag was clear |
| PackedRecord.UnpackPack | bin/solution.rs:136-147 | decoding a record packed in the commented layout gives back its first value, second value, flag and high bits |
| PackedRecord.PackFields | bin/solution.rs:136-147 | every word is the packed record of its own decoded fields, so the layout covers all 256 bits |
| PackedRecord.DecodeAllOnes | bin/solution.rs:145-147 | the all-ones word decodes to u64::MAX, 2^160 - 1 and a set flag |
| PackedRecord.SetFlagIsPackWithFlag | bin/solution.rs:150 | setting the flag gives the record with the same fields and the flag true |
| PackedRecord.SetFlagKeepsValues | bin/solution.rs:145-150 | decoding the flagged word gives the same first and second values and high bits as the original |
| PackedRecord.SetFlagIdempotent | bin/solution.rs:150 | setting the flag twice is setting it once |
| PackedRecord.SetFlagNonzero | bin/solution.rs:150 | a flagged word is never the zero word that ends the list |
| PackedRecord.NextKey | bin/solution.rs:154-158 | the next key is one of the two decoded values, so it is below 2^160; `NextKeyOfPack` states the parity rule on the record's fields |
| PackedRecord.NextKeyOfPack | bin/solution.rs:154-158 | the next key of a record is its first value when even, else its second value |
| PackedRecord.NextKeyIgnoresFlag | bin/solution.rs:145-158 | the next key of the flagged word equals that of the original word |
| StateOverlay.Read | bin/solution.rs:126 | a storage read through the overlay; `InsertAccountStorage` states that a write is read back and leaves other reads alone, and `Solution.FlaggedReadsAgree` that reads through the flagged overlay agree with the original |
| StateOverlay.CacheDb.StorageRef | bin/solution.rs:126 | `storage_ref` on the overlay is `Read` of its provider and pending writes; its properties are stated by `InsertAccountStorage` and `Solution.FlaggedReadsAgree` |
| StateOverlay.CacheDb.BasicRef | bin/solution.rs:102-103 | `basic_ref` on the overlay; `Solution.SolveOutcomes` states that its failure gives `AccountLoadFailed` and a missing account `AccountNotFound` |
| StateOverlay.CacheDb.constructor | bin/solution.rs:98 | a new overlay holds the given provider and no pending writes |
| StateOverlay.CacheDb.InsertAccountStorage | bin/solution.rs:47-48 | the slot now reads as the new value, every other slot reads as before, and only the pending writes change |
| Solution.WriteStorage | bin/solution.rs:41-50 | the pending writes gain exactly this slot with this value, and the slot reads back as the value |
| Solution.WalkEnvFlagBlind | bin/solution.rs:145-158 | the solver's next-key rule gives the same key for a word and for its flagged form |
| Solution.EndIndex | bin/solution.rs:121-131 | every key before the end index is live, and the key at the end index has a zero or unreadable word |
| Solution.EndIndexUnique | bin/solution.rs:128-131 | a chain whose first m keys are live and whose m-th key is not ends exactly at m |
| Solution.FlaggedHolds | bin/solution.rs:150-151 | after n writes, each of the first n keys' slots holds that key's original word with the flag set |
| Solution.FlaggedElsewhere | bin/solution.rs:41-50 | after n writes, a storage word that is no slot of the first n keys has its original entry, or still has none |
| Solution.FlaggedContents | bin/solution.rs:150-151 | both facts above, for every key and every storage word |
| Solution.FlaggedReadsAgree | bin/solution.rs:126-158 | reading through the flagged overlay gives the same liveness, next key and flagged word as reading the original |
| Solution.WalkStep | bin/solution.rs:126-158 | a round that goes on records the next chain key and extends the flagged overlay by one write; the new key is the chain's next key |
| Solution.WalkStop | bin/solution.rs:126-131 | a round that stops ends the walk at this index, with the walk's result and final overlay |
| Solution.LinkedKeysAreChain | bin/solution.rs:119-158 | a key list that starts at 0, has only live nodes and links each key to the next by the next-key rule is a live prefix of the chain; its stop key is the chain's next key |
| Solution.ChainIsLinked | bin/solution.rs:119-158 | every live prefix of the chain is such a linked key list |
| Solution.WalkResultMeaning | bin/solution.rs:110-159 | the walk returns `keys` if and only if `keys` is a linked list whose stop key reads as zero; it fails if a linked list's stop key cannot be read |
| Solution.WalkErrorMeaning | bin/solution.rs:126 | a failed walk reached, after a linked list of live nodes, a node whose read failed |
| Solution.StopKeyNotRecorded | bin/solution.rs:129-134 | the key that ends the walk is not among the recorded keys |
| Solution.FinalOverlay | bin/solution.rs:150-151 | after the walk each recorded key's slot holds its original word with the flag set; every other entry is as before |
| Solution.FlaggedKeysAgree | bin/solution.rs:150-158 | the flag writes change neither the chain's keys nor their liveness |
| Solution.RewalkSameResult | bin/solution.rs:150-158 | walking again over the final overlay ends and gives the same result, so the writes do not change which keys are visited |
| Solution.ShiftKeys | bin/solution.rs:154-158 | a chain that returns to an earlier key repeats itself from there on |
| Solution.CycleShiftLive | bin/solution.rs:154-158 | liveness carries over from a chain key to the key one cycle later |
| Solution.CycleStaysLive | bin/solution.rs:121-131 | every key of a chain that returns to an earlier key is live |
| Solution.CycleNeverEnds | bin/solution.rs:121-131 | a list that links back to one of its own nodes never terminates |
| Solution.SelfLinkedStartNeverEnds | bin/solution.rs:119-131 | a first node whose next key is 0 makes a walk without end |
| Solution.WalkKeysDistinct | bin/solution.rs:121-159 | a walk that ends records each key once |
| Solution.Walk | bin/solution.rs:110-159 | the loop returns the walk's result, and leaves the overlay's pending writes equal to the final flagged overlay |
| Solution.Solve | bin/solution.rs:96-168 | `solve` returns the account-lookup error, the missing-account error, the walk's read failure, or the outcome of `isSolved` on the recorded keys and the final overlay |
| Solution.SolveOutcomes | bin/solution.rs:96-168 | each error of `solve` occurs exactly when its step fails: `AccountLoadFailed` when the lookup fails, `AccountNotFound` when the account is missing, `StorageReadFailed` when the walk fails, `CallFailed(r)` when `isSolved` on the walk's keys and overlay fails with `r`; and `solve` returns a verdict exactly when that call returns it |
| Solution.KeyAtStep | bin/solution.rs:154-158 | unfolds the chain's definition by one step: the key after a readable node is `NextKey` of that node's word; the parity rule itself is stated by `PackedRecord.NextKeyOfPack` |
| Solution.ThreeNodeWordsExist | bin/solution.rs:136-147 | the records packed as (4, 0), (7, 7) and (10, 0) have the scenario's fields |
| Solution.ThreeNodeLinked | bin/solution.rs:119-158 | in the scenario, keys 0, 4 and 7 form a linked list whose stop key 10 reads as zero |
| Solution.ThreeNodeWalk | bin/solution.rs:110-159 | the scenario walk ends after three nodes and returns keys 0, 4 and 7, in that order |
| Solution.ThreeNodeFirstFlags | bin/solution.rs:150-151 | the first two writes of the scenario flag the nodes at keys 0 and 4 |
| Solution.ThreeNodeOverlay | bin/solution.rs:150-151 | after the scenario walk, the pending writes are exactly the three flagged words at the three slots |
| Solution.ThreeNodeSolve | bin/solution.rs:163-167 | `isSolved` receives keys 0, 4 and 7 and the flagged overlay, and its outcome is returned |
| Solution.ThreeNodeFaultEnd | bin/solution.rs:126 | with the node at key 4 unreadable, the scenario chain has one live node and stops at an unreadable word |
| Solution.ThreeNodeFault | bin/solution.rs:126 | with the node at key 4 unreadable, the walk and the whole call fail with the read error |

## Left out

- `main`, the Anvil node, contract deployment and `fetch_values` are process and network I/O. They are not part of this model.
- Keccak-256 itself is not modelled. It is the parameter `keccak`, any function from byte strings to 32-byte digests, so no lemma depends on its output except through equal inputs.
- `call_is_solved` is not modelled: ABI encoding of `isSolved(uint256[])`, the revm execution and the bool decoding. It is the parameter `isSolved`, which receives the keys and the overlay's pending writes and returns a verdict or one of the failures the source distinguishes.
- `basic_ref` is reduced to whether the account exists or the lookup fails. The balance and nonce it returns, and every `println!`, are logging only.
- Solution.WriteStorage: the model's write never fails. In revm, `insert_account_storage` can fail only when loading the account from the provider fails. `solve` has already loaded the same account successfully with `basic_ref`, and the model's provider answers the same way every time, so that path is not modelled.
- The account states of revm's `CacheDB` (for example an account cached as not existing, whose other slots then read as zero) are not modelled. The walk only runs after `basic_ref` has found the account, so every read that misses the pending writes falls through to the provider.
- eyre's error messages are not modelled. Errors are the datatype `SolveError`, one case per failing step.
- Solution.Walk and Solution.Solve require `Terminates`, because the source loop has no bound. Their behaviour on a list that never reaches a zero word (the source runs forever) is not modelled; `CycleNeverEnds` characterises one such input.
- Solution.Walk: the loop computes the next key with `NextKey(value)`, which takes the first value when it is even and the second value otherwise. `NextKeyOfPack` and `PackedRecord.NextKey` state that parity rule. The two decoded values are not kept as separate locals.
- The multi-node scenario (`ThreeNode…`) takes the slot function as a parameter, together with the assumption that keys 0, 4, 7 and 10 have different slots. No concrete Keccak-256 value is computed.

