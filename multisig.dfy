/** The multi-signature wallet contract: an admin manages a list of signers and
    an approval threshold; signers propose transactions and approve them, and a
    transaction is marked Executed by the approval that brings its approval
    count up to the threshold. */
module MultiSig {
  import opened MultiSigTypes
  import opened SignerLists

  /** The stored NextId, reading a missing one as 0. */
  function NextOrZero(nextId: Option<nat>): nat {
    if nextId.Some? then nextId.value else 0
  }

  /** Transaction records and approval lists are stored under the same ids;
      each record carries its own id, lies below `next`, is Pending or
      Executed, and has a duplicate-free approval list headed by its proposer. */
  ghost predicate LedgerValid(next: nat, txs: map<nat, Transaction>, apps: map<nat, seq<Address>>) {
    && apps.Keys == txs.Keys
    && forall id :: id in txs ==>
         && 1 <= id < next
         && txs[id].id == id
         && (txs[id].status.Pending? || txs[id].status.Executed?)
         && apps[id] != []
         && apps[id][0] == txs[id].proposedBy
         && NoDup(apps[id])
  }

  /** Proposing under the next id: the id is unused, and recording a Pending
      transaction with its proposer as only approver, then moving the counter
      on by one, keeps the records well formed. */
  lemma LedgerPropose(next: nat, txs: map<nat, Transaction>, apps: map<nat, seq<Address>>, tx: Transaction)
    requires LedgerValid(next, txs, apps)
    requires next >= 1 && tx.id == next && tx.status == Pending
    ensures next !in txs && next !in apps
    ensures LedgerValid(next + 1, txs[next := tx], apps[next := [tx.proposedBy]])
  {
  }

  /** Approving a stored transaction: appending an approver if absent and
      setting the status to Pending or Executed keeps the records well formed. */
  lemma LedgerApprove(next: nat, txs: map<nat, Transaction>, apps: map<nat, seq<Address>>,
                      id: nat, caller: Address, status: TransactionStatus)
    requires LedgerValid(next, txs, apps)
    requires id in txs && (status.Pending? || status.Executed?)
    ensures LedgerValid(next, txs[id := txs[id].(status := status)], apps[id := AppendIfAbsent(apps[id], caller)])
  {
  }

  /** One contract instance. Each field is one kind of persistent entry; a
      missing entry is `None`, an absent map key, or (for the signer list, whose
      reads default to empty) the empty sequence. */
  class MultiSigContract {
    var admin: Option<Address>                 // Admin
    var threshold: Option<nat>                 // Threshold
    var signers: seq<Address>                  // Signers
    var flagged: set<Address>                  // the addresses a with Signer(a) stored
    var nextId: Option<nat>                    // NextId
    var transactions: map<nat, Transaction>    // Transaction(id)
    var approvals: map<nat, seq<Address>>      // Approvals(id)

    /** What every call preserves. Before `Initialize` nothing is stored.
        After it, Threshold and NextId are stored, the signer list has no
        repeats, every flagged address is listed (the converse fails once a
        signer is removed), and the transaction records are well formed. */
    ghost predicate Valid()
      reads this
    {
      && (admin.None? ==>
            threshold.None? && nextId.None? && signers == [] && flagged == {}
            && transactions == map[] && approvals == map[])
      && (admin.Some? ==> threshold.Some? && nextId.Some? && nextId.value >= 1)
      && NoDup(signers)
      && (forall a :: a in flagged ==> a in signers)
      && LedgerValid(NextOrZero(nextId), transactions, approvals)
    }

    /** Once initialised, the threshold lies in 1..(length of the signer list). */
    ghost predicate ThresholdInRange()
      reads this
    {
      admin.Some? ==> threshold.Some? && 0 < threshold.value <= |signers|
    }

    /** A freshly deployed contract: no entry stored. */
    constructor ()
      ensures Valid() && ThresholdInRange()
      ensures admin == None && threshold == None && nextId == None
      ensures signers == [] && flagged == {} && transactions == map[] && approvals == map[]
    {
      admin, threshold, nextId := None, None, None;
      signers, flagged := [], {};
      transactions, approvals := map[], map[];
    }

    /** One-time setup: store the admin and threshold, register every listed
        signer, and start transaction ids at 1. The caller is not
        authenticated. The check that the signer list is non-empty comes after
        the threshold check and can never fail on its own. */
    method Initialize(newAdmin: Address, input: seq<Address>, t: nat) returns (r: Outcome)
      requires Valid()
      modifies this
      ensures Valid()
      ensures old(admin).Some? ==> r == Failure(AlreadyInitialized)
      ensures old(admin).None? && !(0 < t <= |input|) ==> r == Failure(InvalidThreshold)
      ensures r.Success? <==> old(admin).None? && 0 < t <= |input|
      ensures r.Failure? ==> unchanged(this)
      ensures r.Success? ==>
        && admin == Some(newAdmin) && threshold == Some(t) && nextId == Some(1)
        && signers == Dedup(input)
        && (forall a :: a in flagged <==> a in input)
        && transactions == map[] && approvals == map[]
      ensures r.Success? && NoDup(input) ==> ThresholdInRange()
    {
      if admin.Some? {
        return Failure(AlreadyInitialized);
      }
      if !(0 < t <= |input|) {
        return Failure(InvalidThreshold);
      }
      assert |input| > 0;

      admin := Some(newAdmin);
      threshold := Some(t);
      RegisterSigners(input);
      assert NoDup(signers) && forall a :: a in flagged ==> a in signers;
      nextId := Some(1);
      assert LedgerValid(NextOrZero(nextId), transactions, approvals);
      r := Success;

      if NoDup(input) {
        DedupDistinct(input);
      }
    }

    /** The registration loop of `Initialize`: flag each address of `input` and
        add it to the signer list unless it is listed already. */
    method RegisterSigners(input: seq<Address>)
      modifies this`signers, this`flagged
      ensures signers == AppendAllAbsent(old(signers), input)
      ensures forall a :: a in flagged <==> a in old(flagged) || a in input
    {
      for i := 0 to |input|
        invariant signers == AppendAllAbsent(old(signers), input[..i])
        invariant forall a :: a in flagged <==> a in old(flagged) || a in input[..i]
      {
        assert input[..i + 1] == input[..i] + [input[i]];
        assert AppendAllAbsent(old(signers), input[..i + 1]) ==
          AppendIfAbsent(AppendAllAbsent(old(signers), input[..i]), input[i]);
        flagged := flagged + {input[i]};
        UpdateSignersList(input[i], true);
      }
      assert input[..|input|] == input;
    }

    /** The admin guard: the caller must authenticate and be the stored admin. */
    function OnlyAdmin(authorised: bool, caller: Address): (r: Outcome)
      reads this
      ensures !authorised ==> r == Failure(Unauthorized)
      ensures authorised && admin.None? ==> r == Failure(NotInitialized)
      ensures authorised && admin.Some? && admin.value != caller ==> r == Failure(NotAdmin)
      ensures r.Success? <==> authorised && admin == Some(caller)
    {
      if !authorised then Failure(Unauthorized)
      else if admin.None? then Failure(NotInitialized)
      else if caller != admin.value then Failure(NotAdmin)
      else Success
    }

    /** The signer guard: the caller must authenticate and carry a signer flag. */
    function OnlySigner(authorised: bool, caller: Address): (r: Outcome)
      reads this
      ensures !authorised ==> r == Failure(Unauthorized)
      ensures authorised && caller !in flagged ==> r == Failure(NotSigner)
      ensures r.Success? <==> authorised && caller in flagged
    {
      if !authorised then Failure(Unauthorized)
      else if caller !in flagged then Failure(NotSigner)
      else Success
    }

    /** Admin only: flag a new signer and append it to the signer list unless
        it is listed already. */
    method AddSigner(authorised: bool, caller: Address, a: Address) returns (r: Outcome)
      requires Valid()
      modifies this
      ensures Valid()
      ensures old(OnlyAdmin(authorised, caller)).Failure? ==> r == old(OnlyAdmin(authorised, caller))
      ensures old(OnlyAdmin(authorised, caller)).Success? && a in old(flagged) ==> r == Failure(SignerExists)
      ensures r.Success? <==> old(OnlyAdmin(authorised, caller)).Success? && a !in old(flagged)
      ensures r.Failure? ==> unchanged(this)
      ensures r.Success? ==>
        flagged == old(flagged) + {a} && signers == AppendIfAbsent(old(signers), a)
      ensures admin == old(admin) && threshold == old(threshold) && nextId == old(nextId)
      ensures transactions == old(transactions) && approvals == old(approvals)
      ensures old(ThresholdInRange()) ==> ThresholdInRange()
    {
      r := OnlyAdmin(authorised, caller);
      if r.Failure? {
        return;
      }
      if a in flagged {
        return Failure(SignerExists);
      }
      flagged := flagged + {a};
      UpdateSignersList(a, true);
    }

    /** Admin only: refused unless the signer list is longer than the
        threshold. The target need not be a signer. Its flag is cleared, but
        the signer list is stored back unfiltered, so it keeps its length and
        still names the target. */
    method RemoveSigner(authorised: bool, caller: Address, a: Address) returns (r: Outcome)
      requires Valid()
      modifies this
      ensures Valid()
      ensures old(OnlyAdmin(authorised, caller)).Failure? ==> r == old(OnlyAdmin(authorised, caller))
      ensures old(OnlyAdmin(authorised, caller)).Success? && |old(signers)| <= old(threshold).value ==>
        r == Failure(ThresholdViolation)
      ensures r.Success? <==>
        old(OnlyAdmin(authorised, caller)).Success? && |old(signers)| > old(threshold).value
      ensures r.Failure? ==> unchanged(this)
      ensures r.Success? ==> flagged == old(flagged) - {a}
      ensures signers == old(signers)
      ensures admin == old(admin) && threshold == old(threshold) && nextId == old(nextId)
      ensures transactions == old(transactions) && approvals == old(approvals)
      ensures old(ThresholdInRange()) ==> ThresholdInRange()
    {
      r := OnlyAdmin(authorised, caller);
      if r.Failure? {
        return;
      }
      var t := threshold.value;
      var currentLen := |signers|;
      if !(currentLen > t) {
        return Failure(ThresholdViolation);
      }
      flagged := flagged - {a};
      UpdateSignersList(a, false);
    }

    /** Admin only: store a new threshold in 1..(length of the signer list). */
    method UpdateThreshold(authorised: bool, caller: Address, t: nat) returns (r: Outcome)
      requires Valid()
      modifies this
      ensures Valid()
      ensures old(OnlyAdmin(authorised, caller)).Failure? ==> r == old(OnlyAdmin(authorised, caller))
      ensures old(OnlyAdmin(authorised, caller)).Success? && !(0 < t <= |old(signers)|) ==>
        r == Failure(InvalidThreshold)
      ensures r.Success? <==> old(OnlyAdmin(authorised, caller)).Success? && 0 < t <= |old(signers)|
      ensures r.Failure? ==> unchanged(this)
      ensures r.Success? ==> threshold == Some(t)
      ensures admin == old(admin) && nextId == old(nextId)
      ensures signers == old(signers) && flagged == old(flagged)
      ensures transactions == old(transactions) && approvals == old(approvals)
      ensures old(ThresholdInRange()) ==> ThresholdInRange()
    {
      r := OnlyAdmin(authorised, caller);
      if r.Failure? {
        return;
      }
      var currentLen := |signers|;
      if !(0 < t <= currentLen) {
        return Failure(InvalidThreshold);
      }
      threshold := Some(t);
    }

    /** Signer only: record a Pending transaction under the next id, count the
        proposer's approval, and return the id. The proposal never executes,
        whatever the threshold. */
    method ProposeTransaction(authorised: bool, caller: Address, to: Address, amount: int,
                              data: seq<Byte>, now: nat) returns (r: Result<nat>)
      requires Valid()
      modifies this
      ensures Valid()
      ensures old(OnlySigner(authorised, caller)).Failure? ==>
        r == Err(old(OnlySigner(authorised, caller)).error)
      ensures r.Ok? <==> old(OnlySigner(authorised, caller)).Success?
      ensures r.Err? ==> unchanged(this)
      ensures r.Ok? ==>
        && old(nextId) == Some(r.value)
        && r.value !in old(transactions)
        && nextId == Some(r.value + 1)
        && transactions ==
             old(transactions)[r.value := Transaction(r.value, to, amount, data, Pending, caller, now)]
        && approvals == old(approvals)[r.value := [caller]]
      ensures admin == old(admin) && threshold == old(threshold)
      ensures signers == old(signers) && flagged == old(flagged)
      ensures old(ThresholdInRange()) ==> ThresholdInRange()
    {
      var check := OnlySigner(authorised, caller);
      if check.Failure? {
        return Err(check.error);
      }
      var txId := nextId.value;
      nextId := Some(txId + 1);
      var tx := Transaction(txId, to, amount, data, Pending, caller, now);
      LedgerPropose(txId, transactions, approvals, tx);
      transactions := transactions[txId := tx];
      SelfApprove(caller, txId);
      r := Ok(txId);
    }

    /** Signer only: add the caller's approval to a Pending transaction, and
        mark it Executed when its approval count has reached the threshold.
        Approving again is no error and adds nothing. */
    method ApproveTransaction(authorised: bool, caller: Address, txId: nat) returns (r: Outcome)
      requires Valid()
      modifies this
      ensures Valid()
      ensures old(OnlySigner(authorised, caller)).Failure? ==> r == old(OnlySigner(authorised, caller))
      ensures old(OnlySigner(authorised, caller)).Success? && txId !in old(transactions) ==>
        r == Failure(TransactionNotFound)
      ensures old(OnlySigner(authorised, caller)).Success? && txId in old(transactions)
              && !old(transactions)[txId].status.Pending? ==>
        r == Failure(TransactionNotPending)
      ensures r.Success? <==>
        old(OnlySigner(authorised, caller)).Success? && txId in old(transactions)
        && old(transactions)[txId].status.Pending?
      ensures r.Failure? ==> unchanged(this)
      ensures r.Success? ==>
        var list := AppendIfAbsent(old(approvals)[txId], caller);
        && approvals == old(approvals)[txId := list]
        && transactions == old(transactions)[txId := old(transactions)[txId].(
             status := if |list| >= old(threshold).value then Executed else Pending)]
      ensures admin == old(admin) && threshold == old(threshold) && nextId == old(nextId)
      ensures signers == old(signers) && flagged == old(flagged)
      ensures old(ThresholdInRange()) ==> ThresholdInRange()
    {
      r := OnlySigner(authorised, caller);
      if r.Failure? {
        return;
      }
      if txId !in transactions {
        return Failure(TransactionNotFound);
      }
      var tx := transactions[txId];
      if !tx.status.Pending? {
        return Failure(TransactionNotPending);
      }
      SelfApprove(caller, txId);
      var list := GetApprovals(txId);
      var t := threshold.value;
      if |list| >= t {
        tx := SelfExecute(tx);
      }
      LedgerApprove(NextOrZero(nextId), old(transactions), old(approvals), txId, caller, tx.status);
    }

    /** Mark a transaction Executed and store it back under its own id. */
    method SelfExecute(tx: Transaction) returns (executed: Transaction)
      modifies this`transactions
      ensures executed == tx.(status := Executed)
      ensures transactions == old(transactions)[tx.id := executed]
    {
      executed := tx.(status := Executed);
      transactions := transactions[tx.id := executed];
    }

    /** The stored signer list; empty before any signer is registered. It has
        no repeats and names every flagged address. */
    function GetSigners(): (r: seq<Address>)
      reads this
      ensures Valid() ==> NoDup(r) && forall a :: a in flagged ==> a in r
    {
      signers
    }

    /** Update the signer list. Adding appends the address if it is absent.
        Removing builds the list without the address and stores it, then
        stores the list as first read over it, so the list is left as it was. */
    method UpdateSignersList(a: Address, isAdd: bool)
      modifies this`signers
      ensures signers == if isAdd then AppendIfAbsent(old(signers), a) else old(signers)
    {
      var list := GetSigners();
      if isAdd {
        if a !in list {
          list := list + [a];
        }
      } else {
        var kept: seq<Address> := [];
        for k := 0 to |list|
          invariant kept == Without(list[..k], a)
        {
          assert list[..k + 1][..k] == list[..k];
          assert Without(list[..k + 1], a) ==
            Without(list[..k], a) + (if list[k] == a then [] else [list[k]]);
          if list[k] != a {
            kept := kept + [list[k]];
          }
        }
        assert list[..|list|] == list;
        signers := kept;
        assert signers == Without(old(signers), a);
      }
      signers := list;
    }

    /** The approval list of a transaction; empty when there is none. Each
        list has no repeats and is non-empty exactly for stored transactions. */
    function GetApprovals(txId: nat): (r: seq<Address>)
      reads this
      ensures Valid() ==> NoDup(r) && (r != [] <==> txId in transactions)
    {
      if txId in approvals then approvals[txId] else []
    }

    /** The transaction stored under an id, if any. A stored one carries that
        id, lies below NextId, and is Pending or Executed. */
    function GetTransaction(txId: nat): (r: Option<Transaction>)
      reads this
      ensures r.Some? <==> txId in transactions
      ensures Valid() && r.Some? ==>
        && r.value.id == txId
        && nextId.Some? && txId < nextId.value
        && (r.value.status.Pending? || r.value.status.Executed?)
    {
      if txId in transactions then Some(transactions[txId]) else None
    }

    /** Append the caller to a transaction's approval list unless a linear
        search finds it there already; the list is written only when it grows. */
    method SelfApprove(caller: Address, txId: nat)
      modifies this`approvals
      ensures approvals == old(approvals)[txId := AppendIfAbsent(old(GetApprovals(txId)), caller)]
    {
      var list := GetApprovals(txId);
      var found := false;
      var i := 0;
      while i < |list|
        invariant 0 <= i <= |list|
        invariant found ==> caller in list
        invariant !found ==> caller !in list[..i]
      {
        if list[i] == caller {
          found := true;
          break;
        }
        assert list[..i + 1] == list[..i] + [list[i]];
        i := i + 1;
      }
      assert !found ==> list[..i] == list;
      if !found {
        list := list + [caller];
        approvals := approvals[txId := list];
      }
    }
  }
}
