# Multi-signature wallet contract, modelled in Dafny

This project models a Soroban smart contract that implements a multi-signature
wallet. An admin, fixed at initialisation, manages an ordered list of signers
and an approval threshold. Signers propose transactions (destination, amount,
payload). Each proposal counts as the proposer's first approval. Other signers
approve it, and the approval that brings the approval count up to the
threshold marks it Executed. Nothing is transferred; the contract only records
the intent and its status.

The contract's persistent entries become the fields of the class
`MultiSig.MultiSigContract`:

- Admin, Threshold and NextId are `Option` values.
- The ordered signer list is a `seq`.
- The per-address signer flags are a `set`.
- Transaction records and approval lists are `map`s keyed by transaction id.

Each public call returns an `Outcome` (or a `Result` carrying the new id): success,
or the named reason the call aborts. Every check in the source runs before its
call writes anything, or the host rolls the call back, so each method states
that a failed call leaves the whole state unchanged. `Valid()` is the
invariant every call keeps. `ThresholdInRange()` (threshold between 1 and the
length of the signer list) is kept by every call after an initialisation with
distinct signers.

Files:

- `types.dfy`: addresses, the transaction record and status, errors and outcomes.
- `signer_lists.dfy`: the two list edits the contract performs. One appends an
  address only if it is absent; the other filters an address out. Both come
  with lemmas.
- `multisig.dfy`: the contract class.
- `scenarios.dfy`: call sequences proved from the method contracts alone.

The model follows the code as written, where it differs from the intended
design:

- Removing a signer clears its flag but leaves the stored signer list as it
  was (see Findings). So the list never shrinks, and `remove_signer` keeps
  succeeding at the same list length and threshold. It does not check that the
  target is a signer. Only "every flagged address is listed" holds; the
  converse fails.
- Initialisation checks the threshold against the length of the input, not
  against the number of distinct addresses. With a repeated address the
  threshold can exceed the stored list (`Scenarios.DuplicateSignersScenario`).
- The check that the signer list is non-empty (line 50) follows the threshold
  check and can never fail on its own, so no error is modelled for it.
- A proposal is never executed when it is made, even with threshold 1; only a
  later approval executes it (`Scenarios.ThresholdOneScenario`).

## Model

| member | source | states |
|---|---|---|
| `MultiSig.MultiSigContract.constructor` | contracts/hello-world/src/lib.rs:40-41 | a new contract instance stores no entry and satisfies the invariant |
| `MultiSig.MultiSigContract.Initialize` | contracts/hello-world/src/lib.rs:46-61 | refuses with AlreadyInitialized when Admin is stored, else with InvalidThreshold unless 0 < t <= number of input signers, changing nothing; on success stores admin and threshold, sets NextId to 1, flags exactly the input addresses and stores the input without repeats in first-occurrence order; with distinct input the threshold is within the list length |
| `MultiSig.MultiSigContract.RegisterSigners` | contracts/hello-world/src/lib.rs:55-58 | after the loop, the list is the old list with each input address appended if absent, and the flags are the old flags plus the input addresses |
| `MultiSig.MultiSigContract.OnlyAdmin` | contracts/hello-world/src/lib.rs:64-68 | passes iff the caller authenticates and equals the stored admin; otherwise Unauthorized, NotInitialized (no admin stored) or NotAdmin, in that order |
| `MultiSig.MultiSigContract.OnlySigner` | contracts/hello-world/src/lib.rs:70-76 | passes iff the caller authenticates and carries a signer flag; otherwise Unauthorized or NotSigner |
| `MultiSig.MultiSigContract.AddSigner` | contracts/hello-world/src/lib.rs:79-88 | succeeds iff the admin guard passes and the target is not flagged (else the guard's error or SignerExists, state unchanged); on success the target is flagged and appended to the list only if absent; admin and all other entries unchanged; threshold range preserved |
| `MultiSig.MultiSigContract.RemoveSigner` | contracts/hello-world/src/lib.rs:90-103 | succeeds iff the admin guard passes and the list is longer than the threshold (else the guard's error or ThresholdViolation, state unchanged); on success only the target's flag is cleared, whether or not it was a signer, and the signer list is unchanged; threshold range preserved |
| `MultiSig.MultiSigContract.UpdateThreshold` | contracts/hello-world/src/lib.rs:105-115 | succeeds iff the admin guard passes and 0 < t <= list length (else the guard's error or InvalidThreshold, state unchanged); on success only the threshold changes; threshold range preserved |
| `MultiSig.MultiSigContract.ProposeTransaction` | contracts/hello-world/src/lib.rs:118-145 | succeeds iff the signer guard passes (else its error, state unchanged); returns the old NextId, an id never used before, and advances NextId by exactly one; stores a Pending record with the given fields and the caller as proposer, with approvals exactly [caller]; nothing else changes |
| `MultiSig.MultiSigContract.ApproveTransaction` | contracts/hello-world/src/lib.rs:147-170 | refuses with the signer guard's error, then TransactionNotFound, then TransactionNotPending, changing nothing, so an Executed transaction is never approved again; on success the caller is appended to the approvals if absent, and the record's status becomes Executed iff the approval count reaches the threshold, all its other fields kept |
| `MultiSig.MultiSigContract.SelfExecute` | contracts/hello-world/src/lib.rs:172-178 | returns the record with status Executed and stores it under the record's own id |
| `MultiSig.MultiSigContract.GetSigners` | contracts/hello-world/src/lib.rs:180-185 | the stored list has no repeats and names every flagged address |
| `MultiSig.MultiSigContract.UpdateSignersList` | contracts/hello-world/src/lib.rs:187-209 | adding appends the address if absent; removing first stores the filtered list, then stores the list as read over it, so the list ends unchanged |
| `MultiSig.MultiSigContract.GetApprovals` | contracts/hello-world/src/lib.rs:211-216 | an approval list has no repeats and is non-empty exactly for stored transactions (empty when missing) |
| `MultiSig.MultiSigContract.GetTransaction` | contracts/hello-world/src/lib.rs:218-220 | returns a record iff one is stored; a stored record carries its own id, lies below NextId and is Pending or Executed |
| `MultiSig.MultiSigContract.SelfApprove` | contracts/hello-world/src/lib.rs:222-241 | after the linear search, the approval list is the old one with the caller appended only if absent; no other list changes |
| `MultiSig.LedgerPropose` | contracts/hello-world/src/lib.rs:127-142 | the next id is unused, and recording a Pending proposal with its proposer as sole approver under it, then advancing the counter, keeps the records well formed |
| `MultiSig.LedgerApprove` | contracts/hello-world/src/lib.rs:161-176 | appending an approver if absent and setting the status to Pending or Executed keeps the records well formed |
| `SignerLists.AppendIfAbsent` | contracts/hello-world/src/lib.rs:194-197 | the result contains the address and otherwise only the old entries, extends the old list by at most one, returns it unchanged when the address is present, and keeps it free of repeats |
| `SignerLists.AppendAllAbsent` | contracts/hello-world/src/lib.rs:55-58 | registering a batch extends the old list, contains exactly the old entries and the batch, grows by at most the batch length, and keeps the list free of repeats |
| `SignerLists.Without` | contracts/hello-world/src/lib.rs:199-204 | the filtered list omits the address and keeps every other entry with its number of occurrences, is unchanged when the address is absent, and on a list without repeats is exactly one shorter when the address is present |
| `SignerLists.WithoutKeepsOrder` | contracts/hello-world/src/lib.rs:199-204 | on a list without repeats, the entries the filter keeps stay in their original order |
| `SignerLists.AppendAllDistinct` | contracts/hello-world/src/lib.rs:55-58 | registering addresses that are distinct from each other and from the list appends them all, in order |
| `SignerLists.DedupDistinct` | contracts/hello-world/src/lib.rs:55-58 | registering a list of distinct signers stores that list exactly |
| `SignerLists.DedupFirstOccurrenceOrder` | contracts/hello-world/src/lib.rs:55-58 | the registered list has no repeats, contains exactly the input addresses, and orders them by first occurrence in the input |
| `SignerLists.AppendIfAbsentIdempotent` | contracts/hello-world/src/lib.rs:229-240 | approving twice gives the same list as approving once |
| `SignerLists.WithoutKeepsFlagsInStep` | contracts/hello-world/src/lib.rs:198-205 | when the flags and a list without repeats name the same addresses, the filtered list names exactly the flags left after clearing the target, and is one shorter iff the target was flagged |
| `Scenarios.ProposalScenario` | contracts/hello-world/src/lib.rs:118-145 | signers [A, B, C], threshold 2: A's proposal gets id 1, stays Pending with A as proposer, and has approvals [A] |
| `Scenarios.QuorumScenario` | contracts/hello-world/src/lib.rs:147-178 | continuing it, B's approval makes the approvals [A, B] and executes the transaction |
| `Scenarios.LateApprovalScenario` | contracts/hello-world/src/lib.rs:156-159 | continuing it, C's approval after execution fails with TransactionNotPending and the transaction stays Executed |
| `Scenarios.SecondInitialisation` | contracts/hello-world/src/lib.rs:46-47 | a second initialisation fails with AlreadyInitialized and leaves the signer list and threshold as the first one stored them |
| `Scenarios.RemovalScenario` | contracts/hello-world/src/lib.rs:90-103 | signers [A, B, C], threshold 2: removing C, then B, then A all succeed, the list stays [A, B, C] while no address is flagged and the threshold stays 2, and A can no longer propose |
| `Scenarios.DuplicateSignersScenario` | contracts/hello-world/src/lib.rs:46-58 | signers [A, A], threshold 2: initialisation succeeds with list [A] and threshold 2, and A's approved proposal stays Pending |
| `Scenarios.ThresholdOneScenario` | contracts/hello-world/src/lib.rs:118-169 | threshold 1: a fresh proposal stays Pending; the proposer's repeated approval leaves approvals [A] and executes it |
| `Scenarios.SuccessiveProposals` | contracts/hello-world/src/lib.rs:127-128 | two successful proposals return consecutive ids, neither used before |
| `Scenarios.RepeatedApproval` | contracts/hello-world/src/lib.rs:222-241 | when one signer's first of two approvals succeeds, the approval lists end as a single approval leaves them, whether the second succeeds or finds the transaction executed |

## Left out

- Host authentication (`require_auth`, lines 65 and 71) is a boolean `authorised` parameter; the cryptography is not modelled.
- The ledger clock (line 137) is the `now` parameter; nothing is stated about it.
- The Soroban storage engine and serialisation are replaced by class fields. A missing signer list or approval list reads as empty, as in the source.
- `amount` (i128) and `data` (bytes) are stored as given and never inspected, so they are an unbounded `int` and a byte sequence.
- `MultiSig.MultiSigContract.ProposeTransaction`: NextId is a `nat`, so the u64 overflow of `tx_id + 1` (line 128) is not modelled. Threshold (u32) and ids (u64) are unbounded too.
- The `unwrap` of Threshold and NextId after a passed guard (lines 92, 127, 164) cannot fail under the invariant; the model asserts that instead of returning an error for it. The `unwrap` of a missing Admin (line 66) is the `NotInitialized` error.
- No call moves a transaction to Rejected or Cancelled (lines 24-25); the variants are declared and never produced.
- Serialisation of calls and rollback on abort are host behaviour. The model reflects them by having every failing call change nothing.

## Findings

| source | as written | input that shows it | evidently intended | confidence | as-written member | corrected member |
|---|---|---|---|---|---|---|
| contracts/hello-world/src/lib.rs:198-208 | the removal branch stores the filtered list (line 205), then line 208 stores the unfiltered list over it, so a removed signer stays listed and the list never shrinks | signers [A, B, C], threshold 2: remove C, then remove B; both succeed and the list stays [A, B, C] | the filtered list is kept: C leaves the list, and removing B is refused with the threshold error because the list length would equal the threshold | high; not executed | `Scenarios.RemovalScenario` | `SignerLists.Without`, whose intended property is proved in `SignerLists.WithoutKeepsFlagsInStep` |
