/** The bridge contract, updated in place. */
module ProtonBridge {
  import opened Sums
  import opened TokenLedger
  import Bridge = BridgeTransfers
  import opened BridgeTransfers

  class ProtonBridge {
    const chainId: ChainId
    var activeChains: set<ChainId>
    var wrappedAssets: map<Lock, Address>
    var lockedAssets: map<Lock, nat>
    var validators: map<Address, bool>
    var validatorThreshold: nat
    var pendingTransfers: map<TransferId, Transfer>
    var completedTransfers: set<TransferId>
    var tokens: Ledger
    ghost var released: set<TransferId>
    ghost var privates: map<Lock, nat>
    ghost var repeated: map<Lock, nat>

    ghost function State(): BridgeTransfers.Bridge
      reads this
    {
      BridgeTransfers.Bridge.Bridge(chainId, activeChains, wrappedAssets, lockedAssets, validators, validatorThreshold,
                                    pendingTransfers, completedTransfers, tokens, released, privates, repeated)
    }

    constructor (chainId: ChainId, threshold: nat, tokens: Ledger)
      ensures State() == Deployed(chainId, threshold, tokens) && Inv(State())
    {
      this.chainId, validatorThreshold, this.tokens := chainId, threshold, tokens;
      activeChains, wrappedAssets, lockedAssets, validators := {}, map[], map[], map[];
      pendingTransfers, completedTransfers := map[], {};
      released, privates, repeated := {}, map[], map[];
      new;
      DeployedInv(chainId, threshold, tokens);
    }

    method InitiateTransfer(sender: Address, target: ChainId, receiver: Holder, asset: Address, amount: nat,
                            timestamp: nat, height: nat, approved: bool)
      returns (id: TransferId, r: Outcome)
      requires Inv(State())
      modifies this
      ensures id == PublicId(target, sender, receiver, asset, amount, timestamp, height)
      ensures (State(), r) == Initiate(old(State()), id, approved) && Inv(State())
    {
      hide Inv, Moved;
      id := PublicId(target, sender, receiver, asset, amount, timestamp, height);
      InitiateKeepsInv(State(), id, approved);
      if target !in activeChains { return id, Revert(ChainNotSupported); }
      if id in completedTransfers { return id, Revert(TransferAlreadyCompleted); }
      if !approved || BalanceOf(tokens, asset, Account(sender)) < amount { return id, Revert(LockFailed); }
      tokens := Moved(tokens, asset, Account(sender), Contract, amount);
      lockedAssets := Added(lockedAssets, (target, asset), amount);
      if id in pendingTransfers { repeated := Added(repeated, (target, asset), amount); }
      pendingTransfers := pendingTransfers[id :=
        Transfer(chainId, target, sender, receiver, asset, amount, SignaturesOf(pendingTransfers, id), 0, Pending)];
      return id, Ok;
    }

    method InitiatePrivateTransfer(sender: Address, target: ChainId, stealthReceiver: nat, asset: Address,
                                   encryptedAmount: nat, timestamp: nat, proofOk: bool)
      returns (id: TransferId, r: Outcome)
      requires Inv(State())
      modifies this
      ensures id == PrivateId(target, sender, stealthReceiver, asset, encryptedAmount, timestamp)
      ensures (State(), r) == InitiatePrivate(old(State()), id, proofOk) && Inv(State())
    {
      hide Inv;
      id := PrivateId(target, sender, stealthReceiver, asset, encryptedAmount, timestamp);
      InitiatePrivateKeepsInv(State(), id, proofOk);
      if target !in activeChains { return id, Revert(ChainNotSupported); }
      if !proofOk { return id, Revert(InvalidZKProof); }
      lockedAssets := Added(lockedAssets, (target, asset), 1);
      privates := Added(privates, (target, asset), 1);
      pendingTransfers := pendingTransfers[id :=
        Transfer(chainId, target, sender, Account(0), asset, 0, SignaturesOf(pendingTransfers, id), 0, Pending)];
      return id, Ok;
    }

    method SignTransfer(caller: Address, id: TransferId, signatureOk: bool, merkleOk: bool) returns (r: Outcome)
      requires Inv(State())
      modifies this
      ensures (State(), r) == Sign(old(State()), caller, id, signatureOk, merkleOk) && Inv(State())
    {
      hide Inv;
      SignKeepsInv(State(), caller, id, signatureOk, merkleOk);
      if caller == 0 || caller !in validators { return Revert(NotValidator); }
      if !validators[caller] { return Revert(ValidatorNotActive); }
      if id !in pendingTransfers { return Revert(TransferNotFound); }
      var t := pendingTransfers[id];
      if t.status == Executed { return Revert(TransferAlreadyCompleted); }
      if !signatureOk { return Revert(InvalidZKProof); }
      if !merkleOk { return Revert(InvalidMerkleProof); }
      if caller !in t.signatures {
        t := t.(signatures := t.signatures + {caller});
        t := t.(signatureCount := t.signatureCount + 1);
      }
      if t.signatureCount >= validatorThreshold {
        t := t.(status := SignaturesComplete);
      } else {
        t := t.(status := SourceConfirmed);
      }
      assert t == Signed(pendingTransfers[id], caller, validatorThreshold) by {
        if caller in pendingTransfers[id].signatures {
          assert pendingTransfers[id].signatures + {caller} == pendingTransfers[id].signatures;
        }
      }
      pendingTransfers := pendingTransfers[id := t];
      return Ok;
    }

    method Release(id: TransferId)
      requires id in pendingTransfers
      requires pendingTransfers[id].amount <=
               Get(lockedAssets, (pendingTransfers[id].sourceChain, pendingTransfers[id].asset))
      requires pendingTransfers[id].amount <= BalanceOf(tokens, pendingTransfers[id].asset, Contract)
      modifies this
      ensures State() == Released(old(State()), id)
    {
      hide Moved;
      var t := pendingTransfers[id];
      var k := (t.sourceChain, t.asset);
      lockedAssets := lockedAssets[k := Get(lockedAssets, k) - t.amount];
      tokens := Moved(tokens, t.asset, Contract, t.receiver, t.amount);
      released := released + {id};
    }

    method Complete(id: TransferId)
      requires id in pendingTransfers
      modifies this
      ensures State() == Done(old(State()), id)
    {
      pendingTransfers := pendingTransfers[id := pendingTransfers[id].(status := Executed)];
      completedTransfers := completedTransfers + {id};
    }

    /** Reverts only for the caller's or the validators' reasons, never for want of locked assets or tokens. */
    method ExecuteTransfer(id: TransferId, mintOk: bool) returns (r: Outcome)
      requires Inv(State())
      modifies this
      ensures (State(), r) == Execute(old(State()), id, mintOk) && Inv(State())
      ensures r != Revert(InsufficientLockedAssets) && r != Revert(ReleaseFailed)
    {
      ghost var s := State();
      ExecuteKeepsInv(s, id, mintOk);
      ExecutesIff(s, id, mintOk);
      hide Inv, Moved, Minted, Get, BalanceOf, Released, Done;
      if id !in pendingTransfers { return Revert(TransferNotFound); }
      var t := pendingTransfers[id];
      if t.status != SignaturesComplete { return Revert(InsufficientSignatures); }
      if t.targetChain != chainId { return Revert(ChainNotSupported); }
      if id in completedTransfers { return Revert(TransferAlreadyCompleted); }
      var k := (t.sourceChain, t.asset);
      var wrapped := Get(wrappedAssets, k);
      if wrapped != 0 {
        if !mintOk { return Revert(MintFailed); }
        tokens := Minted(tokens, wrapped, t.receiver, t.amount);
      } else {
        if Get(lockedAssets, k) < t.amount { return Revert(InsufficientLockedAssets); }
        if BalanceOf(tokens, t.asset, Contract) < t.amount { return Revert(ReleaseFailed); }
        Release(id);
      }
      Complete(id);
      return Ok;
    }

    method AddValidator(byOwner: bool, v: Address) returns (r: Outcome)
      requires Inv(State())
      modifies this
      ensures (State(), r) == Bridge.AddValidator(old(State()), byOwner, v) && Inv(State())
    {
      hide Inv;
      AdminKeepsInv(State(), Bridge.AddValidator(State(), byOwner, v).0);
      if !byOwner { return Revert(NotOwner); }
      if v != 0 && v in validators { return Revert(ValidatorAlreadyExists); }
      validators := validators[v := true];
      return Ok;
    }

    method SetValidatorThreshold(byOwner: bool, threshold: nat) returns (r: Outcome)
      requires Inv(State())
      modifies this
      ensures (State(), r) == SetThreshold(old(State()), byOwner, threshold) && Inv(State())
    {
      hide Inv;
      AdminKeepsInv(State(), SetThreshold(State(), byOwner, threshold).0);
      if !byOwner { return Revert(NotOwner); }
      validatorThreshold := threshold;
      return Ok;
    }
  }
}
