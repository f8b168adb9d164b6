/** Values stored by the multi-signature wallet contract: addresses, the
    transaction record and its status, and the outcome of a contract call. */
module MultiSigTypes {

  /** An account address. The host's address is opaque; all the contract does
      with one is compare it for equality, so a number stands for it. */
  type Address = nat

  /** A byte of a transaction's opaque payload. */
  type Byte = bv8

  datatype Option<T> = None | Some(value: T)

  /** Lifecycle of a proposed transaction. Only Pending -> Executed is ever
      taken; Rejected and Cancelled are declared but no call produces them. */
  datatype TransactionStatus = Pending | Executed | Rejected | Cancelled

  /** The stored transaction record. `amount` and `data` are kept as given and
      never inspected; `createdAt` is the host ledger time at proposal. */
  datatype Transaction = Transaction(
    id: nat,
    to: Address,
    amount: int,
    data: seq<Byte>,
    status: TransactionStatus,
    proposedBy: Address,
    createdAt: nat)

  /** The reasons a call aborts. Every abort rolls back the whole call. */
  datatype Error =
    | AlreadyInitialized     // Admin is already stored
    | InvalidThreshold       // threshold outside 1..number of signers
    | NotInitialized         // a required entry (Admin) is missing
    | Unauthorized           // the host could not authenticate the caller
    | NotAdmin               // caller is not the stored Admin
    | NotSigner              // caller carries no signer flag
    | SignerExists           // the address to add is already flagged
    | ThresholdViolation     // removal would leave no signer above the threshold
    | TransactionNotFound    // no record under the given id
    | TransactionNotPending  // the record is no longer Pending

  /** Outcome of a call that returns nothing. */
  datatype Outcome = Success | Failure(error: Error)

  /** Outcome of a call that returns a value. */
  datatype Result<T> = Ok(value: T) | Err(error: Error)
}
