/** Call sequences on a fresh contract, each proved from the contracts of the
    calls alone: the wallet's intended walkthrough, and the behaviours that the
    signer-list update and the initial registration actually produce. */
module Scenarios {
  import opened MultiSigTypes
  import opened SignerLists
  import opened MultiSig

  const Admin: Address := 0
  const A: Address := 1
  const B: Address := 2
  const C: Address := 3
  const Payee: Address := 9

  /** Signers [A, B, C] with threshold 2: A's proposal gets id 1, stays
      Pending, and has approvals [A]. */
  method ProposalScenario() returns (id: Result<nat>, proposed: Option<Transaction>, approvals: seq<Address>)
    ensures id == Ok(1)
    ensures proposed.Some? && proposed.value.status == Pending && proposed.value.proposedBy == A
    ensures approvals == [A]
  {
    var c := new MultiSigContract();
    var init := c.Initialize(Admin, [A, B, C], 2);
    id := c.ProposeTransaction(true, A, Payee, 100, [], 0);
    proposed := c.GetTransaction(1);
    approvals := c.GetApprovals(1);
  }

  /** Continuing the proposal above: B's approval makes the approvals [A, B]
      and executes the transaction. */
  method QuorumScenario() returns (approved: Outcome, approvals: seq<Address>, executed: Option<Transaction>)
    ensures approved == Success && approvals == [A, B]
    ensures executed.Some? && executed.value.status == Executed
  {
    var c := new MultiSigContract();
    var init := c.Initialize(Admin, [A, B, C], 2);
    var id := c.ProposeTransaction(true, A, Payee, 100, [], 0);
    approved := c.ApproveTransaction(true, B, 1);
    approvals := c.GetApprovals(1);
    executed := c.GetTransaction(1);
  }

  /** Once executed, a transaction refuses any further approval, here C's,
      and stays as it was. */
  method LateApprovalScenario() returns (late: Outcome, executed: Option<Transaction>)
    ensures late == Failure(TransactionNotPending)
    ensures executed.Some? && executed.value.status == Executed
  {
    var c := new MultiSigContract();
    var init := c.Initialize(Admin, [A, B, C], 2);
    var id := c.ProposeTransaction(true, A, Payee, 100, [], 0);
    var approved := c.ApproveTransaction(true, B, 1);
    late := c.ApproveTransaction(true, C, 1);
    executed := c.GetTransaction(1);
  }

  /** A second initialisation is refused and leaves every entry as it was. */
  method SecondInitialisation() returns (first: Outcome, again: Outcome, list: seq<Address>, threshold: Option<nat>)
    ensures first == Success && again == Failure(AlreadyInitialized)
    ensures list == [A, B, C] && threshold == Some(2)
  {
    var c := new MultiSigContract();
    DedupDistinct([A, B, C]);
    first := c.Initialize(Admin, [A, B, C], 2);
    again := c.Initialize(Admin, [A], 1);
    list := c.GetSigners();
    threshold := c.threshold;
  }

  /** Signers [A, B, C] with threshold 2: removing C succeeds, and so does
      removing B afterwards, because the stored signer list never shrinks.
      Removing A as well leaves no flagged signer with the threshold still 2,
      so nobody can propose or approve again, while the list names all three. */
  method RemovalScenario() returns (first: Outcome, second: Outcome, third: Outcome,
                                    list: seq<Address>, flags: set<Address>,
                                    threshold: Option<nat>, proposal: Result<nat>)
    ensures first == Success && second == Success && third == Success
    ensures list == [A, B, C] && flags == {} && threshold == Some(2)
    ensures proposal == Err(NotSigner)
  {
    var c := new MultiSigContract();
    DedupDistinct([A, B, C]);
    var init := c.Initialize(Admin, [A, B, C], 2);
    first := c.RemoveSigner(true, Admin, C);
    second := c.RemoveSigner(true, Admin, B);
    third := c.RemoveSigner(true, Admin, A);
    list := c.GetSigners();
    flags := c.flagged;
    threshold := c.threshold;
    proposal := c.ProposeTransaction(true, A, Payee, 100, [], 0);
  }

  /** Signers [A, A] with threshold 2: initialisation succeeds, the list holds
      A once, and the threshold exceeds it; A's proposal can then never reach
      two approvals. */
  method DuplicateSignersScenario() returns (init: Outcome, list: seq<Address>, threshold: Option<nat>,
                                             id: Result<nat>, approved: Outcome, status: Option<Transaction>)
    ensures init == Success && list == [A] && threshold == Some(2)
    ensures id == Ok(1) && approved == Success
    ensures status.Some? && status.value.status == Pending
  {
    var c := new MultiSigContract();
    init := c.Initialize(Admin, [A, A], 2);
    assert [A, A][..1] == [A];
    list := c.GetSigners();
    threshold := c.threshold;
    id := c.ProposeTransaction(true, A, Payee, 100, [], 0);
    approved := c.ApproveTransaction(true, A, 1);
    status := c.GetTransaction(1);
  }

  /** Threshold 1: the proposal alone already meets the threshold but stays
      Pending; the proposer's repeated approval adds nothing yet executes it. */
  method ThresholdOneScenario() returns (proposed: Option<Transaction>, approved: Outcome,
                                         approvals: seq<Address>, executed: Option<Transaction>)
    ensures proposed.Some? && proposed.value.status == Pending
    ensures approved == Success && approvals == [A]
    ensures executed.Some? && executed.value.status == Executed
  {
    var c := new MultiSigContract();
    var init := c.Initialize(Admin, [A], 1);
    var id := c.ProposeTransaction(true, A, Payee, 100, [], 0);
    proposed := c.GetTransaction(1);
    approved := c.ApproveTransaction(true, A, 1);
    approvals := c.GetApprovals(1);
    executed := c.GetTransaction(1);
  }

  /** Two successive proposals on any contract: the second id is the first
      plus one, and neither was in use before. */
  method SuccessiveProposals(c: MultiSigContract, authorised: bool, caller: Address, to: Address,
                             amount: int, data: seq<Byte>, now: nat)
    returns (first: Result<nat>, second: Result<nat>)
    requires c.Valid()
    modifies c
    ensures c.Valid()
    ensures first.Ok? <==> second.Ok?
    ensures first.Ok? ==>
      && second.value == first.value + 1
      && first.value !in old(c.transactions) && second.value !in old(c.transactions)
  {
    first := c.ProposeTransaction(authorised, caller, to, amount, data, now);
    second := c.ProposeTransaction(authorised, caller, to, amount, data, now);
  }

  /** The same signer approving the same transaction twice: once the first
      call succeeds, the approval lists are the ones a single approval gives,
      whether the second call succeeds or finds the transaction executed. */
  method RepeatedApproval(c: MultiSigContract, caller: Address, id: nat) returns (first: Outcome, second: Outcome)
    requires c.Valid()
    modifies c
    ensures c.Valid()
    ensures first.Success? ==>
      id in old(c.approvals) && c.approvals == old(c.approvals)[id := AppendIfAbsent(old(c.approvals)[id], caller)]
  {
    first := c.ApproveTransaction(true, caller, id);
    second := c.ApproveTransaction(true, caller, id);
    if first.Success? {
      AppendIfAbsentIdempotent(old(c.approvals)[id], caller);
    }
  }
}
