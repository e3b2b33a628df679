/** What every run of the bridge keeps. */
module BridgeRuns {
  import opened Sums
  import opened TokenLedger
  import opened BridgeTransfers

  datatype Op =
    | AddChainOp(byOwner: bool, chain: ChainId)
    | RegisterWrappedOp(byOwner: bool, lock: Lock, localAsset: Address)
    | AddValidatorOp(byOwner: bool, validator: Address)
    | SetThresholdOp(byOwner: bool, threshold: nat)
    | DeactivateChainOp(byOwner: bool, chain: ChainId)
    | DeactivateValidatorOp(byOwner: bool, validator: Address)
    | InitiateOp(target: ChainId, sender: Address, receiver: Holder, asset: Address, amount: nat, timestamp: nat,
                 height: nat, approved: bool)
    | InitiatePrivateOp(target: ChainId, sender: Address, stealthReceiver: nat, asset: Address, encryptedAmount: nat,
                        timestamp: nat, proofOk: bool)
    | SignOp(caller: Address, id: TransferId, signatureOk: bool, merkleOk: bool)
    | ExecuteOp(id: TransferId, mintOk: bool)
    | OutsideOp(token: Address, sender: Address, to: Holder, amount: nat)

  ghost function Step(s: Bridge, op: Op): (Bridge, Outcome) {
    match op
    case AddChainOp(byOwner, chain) => AddChain(s, byOwner, chain)
    case RegisterWrappedOp(byOwner, k, localAsset) => RegisterWrapped(s, byOwner, k, localAsset)
    case AddValidatorOp(byOwner, v) => AddValidator(s, byOwner, v)
    case SetThresholdOp(byOwner, n) => SetThreshold(s, byOwner, n)
    case DeactivateChainOp(byOwner, chain) => DeactivateChain(s, byOwner, chain)
    case DeactivateValidatorOp(byOwner, v) => DeactivateValidator(s, byOwner, v)
    case InitiateOp(target, sender, receiver, asset, amount, timestamp, height, approved) =>
      Initiate(s, PublicId(target, sender, receiver, asset, amount, timestamp, height), approved)
    case InitiatePrivateOp(target, sender, stealth, asset, encrypted, timestamp, proofOk) =>
      InitiatePrivate(s, PrivateId(target, sender, stealth, asset, encrypted, timestamp), proofOk)
    case SignOp(caller, id, signatureOk, merkleOk) => Sign(s, caller, id, signatureOk, merkleOk)
    case ExecuteOp(id, mintOk) => Execute(s, id, mintOk)
    case OutsideOp(token, sender, to, amount) =>
      if amount <= BalanceOf(s.tokens, token, Account(sender))
      then (s.(tokens := Moved(s.tokens, token, Account(sender), to, amount)), Ok)
      else (s, Ok)
  }

  ghost function Run(s: Bridge, ops: seq<Op>): Bridge
    decreases |ops|
  {
    if ops == [] then s else Step(Run(s, ops[..|ops| - 1]), ops[|ops| - 1]).0
  }

  predicate IsAdmin(op: Op) {
    op.AddChainOp? || op.RegisterWrappedOp? || op.AddValidatorOp? || op.SetThresholdOp? || op.DeactivateChainOp?
    || op.DeactivateValidatorOp?
  }

  lemma ConfigurationOnly(s: Bridge, s': Bridge)
    requires || s' == s.(activeChains := s'.activeChains)
             || s' == s.(wrapped := s'.wrapped)
             || s' == s.(threshold := s'.threshold)
             || s' == s.(validators := s'.validators)
    ensures SameBooks(s, s')
  {
  }

  lemma AdminKeepsRoster(s: Bridge, op: Op)
    requires IsAdmin(op)
    ensures var s' := Step(s, op).0;
            && SameBooks(s, s') && s.validators.Keys <= s'.validators.Keys
            && (!op.AddValidatorOp? ==> s'.validators.Keys == s.validators.Keys)
            && (!op.SetThresholdOp? ==> s'.threshold == s.threshold)
  {
    hide SameBooks, Initiate, InitiatePrivate, Sign, Execute, Moved, BalanceOf;
    ConfigurationOnly(s, s);
    match op
    case AddChainOp(_, chain) => ConfigurationOnly(s, s.(activeChains := s.activeChains + {chain}));
    case RegisterWrappedOp(_, k, localAsset) => ConfigurationOnly(s, s.(wrapped := s.wrapped[k := localAsset]));
    case AddValidatorOp(_, v) => ConfigurationOnly(s, s.(validators := s.validators[v := true]));
    case SetThresholdOp(_, n) => ConfigurationOnly(s, s.(threshold := n));
    case DeactivateChainOp(_, chain) => ConfigurationOnly(s, s.(activeChains := s.activeChains - {chain}));
    case DeactivateValidatorOp(_, v) =>
      ConfigurationOnly(s, s.(validators := s.validators[v := false]));
      if v in s.validators { assert s.validators[v := false].Keys == s.validators.Keys; }
  }

  lemma StepKeepsInv(s: Bridge, op: Op)
    requires Inv(s)
    ensures Inv(Step(s, op).0)
  {
    hide Inv, Initiate, InitiatePrivate, Sign, Execute, Moved, BalanceOf;
    var s' := Step(s, op).0;
    match op
    case InitiateOp(target, sender, receiver, asset, amount, timestamp, height, approved) =>
      InitiateKeepsInv(s, PublicId(target, sender, receiver, asset, amount, timestamp, height), approved);
    case InitiatePrivateOp(target, sender, stealth, asset, encrypted, timestamp, proofOk) =>
      InitiatePrivateKeepsInv(s, PrivateId(target, sender, stealth, asset, encrypted, timestamp), proofOk);
    case SignOp(caller, id, signatureOk, merkleOk) => SignKeepsInv(s, caller, id, signatureOk, merkleOk);
    case ExecuteOp(id, mintOk) => ExecuteKeepsInv(s, id, mintOk);
    case OutsideOp(token, sender, to, amount) =>
      if amount <= BalanceOf(s.tokens, token, Account(sender)) { OutsideKeepsInv(s, token, sender, to, amount); }
    case _ =>
      AdminKeepsRoster(s, op);
      AdminKeepsInv(s, s');
  }

  lemma {:induction false} RunKeepsInv(s: Bridge, ops: seq<Op>)
    requires Inv(s)
    ensures Inv(Run(s, ops)) && Run(s, ops).chainId == s.chainId
    decreases |ops|
  {
    if ops != [] {
      RunKeepsInv(s, ops[..|ops| - 1]);
      StepKeepsInv(Run(s, ops[..|ops| - 1]), ops[|ops| - 1]);
      StepKeepsChain(Run(s, ops[..|ops| - 1]), ops[|ops| - 1]);
    }
  }

  lemma StepKeepsChain(s: Bridge, op: Op)
    ensures Step(s, op).0.chainId == s.chainId
  {
    hide Moved, Minted;
  }

  /** In every reachable state: a lock holds the open public amounts behind it, one unit per private initiation, and
      whatever repeated initiations locked again; the bridge's tokens cover everything open; and execution never fails
      for want of locked assets or tokens. */
  lemma Reachable(chainId: ChainId, threshold: nat, tokens: Ledger, ops: seq<Op>, k: Lock, id: TransferId, mintOk: bool)
    ensures var s := Run(Deployed(chainId, threshold, tokens), ops);
            && Get(s.locked, k) == OwedAt(Open(s), k) + Get(s.privates, k) + Get(s.repeated, k)
            && BalanceOf(s.tokens, k.1, Contract) >= OwedIn(Open(s), k.1)
            && Execute(s, id, mintOk).1 != Revert(InsufficientLockedAssets)
            && Execute(s, id, mintOk).1 != Revert(ReleaseFailed)
  {
    var s0 := Deployed(chainId, threshold, tokens);
    DeployedInv(chainId, threshold, tokens);
    RunKeepsInv(s0, ops);
    var s := Run(s0, ops);
    assert LockSound(s, k) && Covered(s, k.1);
    ExecutesIff(s, id, mintOk);
  }

  // ----- runs that never initiate a pending id again

  ghost predicate Fresh(s: Bridge, op: Op) {
    op.InitiateOp? ==> IdOf(op) !in s.pending
  }

  ghost predicate AlwaysFresh(s: Bridge, ops: seq<Op>) {
    forall i :: 0 <= i < |ops| ==> Fresh(Run(s, ops[..i]), ops[i])
  }

  lemma FreshFront(s: Bridge, ops: seq<Op>)
    requires ops != [] && AlwaysFresh(s, ops)
    ensures AlwaysFresh(s, ops[..|ops| - 1]) && Fresh(Run(s, ops[..|ops| - 1]), ops[|ops| - 1])
  {
    var front := ops[..|ops| - 1];
    forall i | 0 <= i < |front| ensures Fresh(Run(s, front[..i]), front[i]) {
      assert front[..i] == ops[..i] && Fresh(Run(s, ops[..i]), ops[i]);
    }
  }

  lemma FreshStepRepeatsNothing(s: Bridge, op: Op, k: Lock)
    requires Fresh(s, op)
    ensures Get(Step(s, op).0.repeated, k) == Get(s.repeated, k)
  {
    hide Moved, Minted, Opened, Signed;
  }

  lemma {:induction false} FreshRunRepeatsNothing(s: Bridge, ops: seq<Op>, k: Lock)
    requires AlwaysFresh(s, ops)
    ensures Get(Run(s, ops).repeated, k) == Get(s.repeated, k)
    decreases |ops|
  {
    hide Step, Fresh, AlwaysFresh;
    if ops != [] {
      FreshFront(s, ops);
      FreshRunRepeatsNothing(s, ops[..|ops| - 1], k);
      FreshStepRepeatsNothing(Run(s, ops[..|ops| - 1]), ops[|ops| - 1], k);
    }
  }

  /** With ids that do not repeat, the lock is exactly what is open plus the private initiations. */
  lemma LockedIsOwed(chainId: ChainId, threshold: nat, tokens: Ledger, ops: seq<Op>, k: Lock)
    requires AlwaysFresh(Deployed(chainId, threshold, tokens), ops)
    ensures var s := Run(Deployed(chainId, threshold, tokens), ops);
            Get(s.locked, k) == OwedAt(Open(s), k) + Get(s.privates, k)
  {
    var s0 := Deployed(chainId, threshold, tokens);
    DeployedInv(chainId, threshold, tokens);
    RunKeepsInv(s0, ops);
    assert LockSound(Run(s0, ops), k);
    FreshRunRepeatsNothing(s0, ops, k);
  }

  // ----- execution

  ghost function Executions(s: Bridge, ops: seq<Op>, id: TransferId): nat
    decreases |ops|
  {
    if ops == [] then 0
    else
      var front, last := ops[..|ops| - 1], ops[|ops| - 1];
      Executions(s, front, id) + if last.ExecuteOp? && last.id == id && Step(Run(s, front), last).1.Ok? then 1 else 0
  }

  function IdOf(op: Op): TransferId
    requires op.InitiateOp? || op.InitiatePrivateOp? || op.SignOp? || op.ExecuteOp?
  {
    match op
    case InitiateOp(target, sender, receiver, asset, amount, timestamp, height, _) =>
      PublicId(target, sender, receiver, asset, amount, timestamp, height)
    case InitiatePrivateOp(target, sender, stealth, asset, encrypted, timestamp, _) =>
      PrivateId(target, sender, stealth, asset, encrypted, timestamp)
    case SignOp(_, id, _, _) => id
    case ExecuteOp(id, _) => id
  }

  lemma ExecuteWrites(s: Bridge, id: TransferId, mintOk: bool)
    ensures var (s', r) := Execute(s, id, mintOk);
            if !r.Ok? then s' == s
            else
              && id in s.pending && s.pending[id].status.SignaturesComplete? && id !in s.completed
              && s'.completed == s.completed + {id}
              && s'.pending == s.pending[id := s.pending[id].(status := Executed)]
              && s'.threshold == s.threshold && s'.validators == s.validators
  {
    hide Moved, Minted, BalanceOf, Get;
  }

  /** The one record a call writes, and the one id it completes. */
  lemma StepWrites(s: Bridge, op: Op)
    ensures var (s', r) := Step(s, op);
            if !r.Ok? then s' == s
            else if op.InitiateOp? then
              && IdOf(op) !in s.completed && s'.completed == s.completed
              && s'.pending == s.pending[IdOf(op) := Opened(s, IdOf(op))]
            else if op.InitiatePrivateOp? then
              && s'.completed == s.completed
              && s'.pending == s.pending[IdOf(op) := Opened(s, IdOf(op))]
            else if op.SignOp? then
              && op.id in s.pending && !s.pending[op.id].status.Executed? && op.caller in s.validators
              && s'.completed == s.completed
              && s'.pending == s.pending[op.id := Signed(s.pending[op.id], op.caller, s.threshold)]
            else if op.ExecuteOp? then
              && op.id in s.pending && s.pending[op.id].status.SignaturesComplete? && op.id !in s.completed
              && s'.completed == s.completed + {op.id}
              && s'.pending == s.pending[op.id := s.pending[op.id].(status := Executed)]
            else s'.pending == s.pending && s'.completed == s.completed
  {
    hide Moved, Opened, Signed, Added, BalanceOf, Execute;
    if op.ExecuteOp? { ExecuteWrites(s, op.id, op.mintOk); }
  }

  lemma StepKeepsRoster(s: Bridge, op: Op)
    ensures !op.SetThresholdOp? ==> Step(s, op).0.threshold == s.threshold
    ensures !op.AddValidatorOp? ==> Step(s, op).0.validators.Keys == s.validators.Keys
  {
    if IsAdmin(op) {
      hide Step;
      AdminKeepsRoster(s, op);
    } else {
      hide Moved, Opened, Signed, Added, BalanceOf, Execute;
      if op.ExecuteOp? { ExecuteWrites(s, op.id, op.mintOk); }
    }
  }

  lemma StepCompletes(s: Bridge, op: Op, id: TransferId)
    ensures id in Step(s, op).0.completed <==>
              id in s.completed || (op.ExecuteOp? && op.id == id && Step(s, op).1.Ok?)
    ensures op.ExecuteOp? && op.id == id && Step(s, op).1.Ok? ==> id !in s.completed
  {
    hide Step;
    StepWrites(s, op);
  }

  /** Each id executes at most once, however often it is initiated, signed and executed. */
  lemma {:induction false} ExecutedOnce(chainId: ChainId, threshold: nat, tokens: Ledger, ops: seq<Op>, id: TransferId)
    ensures var s0 := Deployed(chainId, threshold, tokens);
            Executions(s0, ops, id) == if id in Run(s0, ops).completed then 1 else 0
    decreases |ops|
  {
    hide Step;
    if ops != [] {
      ExecutedOnce(chainId, threshold, tokens, ops[..|ops| - 1], id);
      StepCompletes(Run(Deployed(chainId, threshold, tokens), ops[..|ops| - 1]), ops[|ops| - 1], id);
    }
  }

  /** Releasing pays the receiver named at initiation the amount locked there, out of the bridge's tokens. */
  lemma ReleasePays(s: Bridge, id: TransferId, mintOk: bool, t: Address, h: Holder)
    requires Inv(s) && Execute(s, id, mintOk).1.Ok? && id.PublicId? && Get(s.wrapped, LockOf(id)) == 0
    ensures var s' := Execute(s, id, mintOk).0;
            && Get(s'.locked, LockOf(id)) == Get(s.locked, LockOf(id)) - id.amount
            && BalanceOf(s'.tokens, t, h) ==
                 BalanceOf(s.tokens, t, h)
                 - (if t == id.asset && h == Contract then id.amount else 0)
                 + (if t == id.asset && h == id.receiver then id.amount else 0)
  {
    assert Recorded(s, id);
    hide Recorded, RecordsSound, OwedAt, OwedIn, Moved;
  }

  /** Minting pays the receiver in the wrapped token and leaves every lock and every other balance alone. */
  lemma MintPays(s: Bridge, id: TransferId, mintOk: bool, t: Address, h: Holder)
    requires Inv(s) && Execute(s, id, mintOk).1.Ok? && id.PublicId? && Get(s.wrapped, LockOf(id)) != 0
    ensures var s' := Execute(s, id, mintOk).0;
            && s'.locked == s.locked
            && BalanceOf(s'.tokens, t, h) ==
                 BalanceOf(s.tokens, t, h)
                 + if t == Get(s.wrapped, LockOf(id)) && h == id.receiver then id.amount else 0
  {
    assert Recorded(s, id);
    hide Recorded, RecordsSound, OwedAt, OwedIn, Minted;
  }

  // ----- approval

  /** The call is a signature to be counted: by a registered, active validator, of a pending transfer that has not been
      executed, with a signature and a proof that check. */
  predicate Accepts(s: Bridge, op: Op, id: TransferId) {
    && op.SignOp? && op.id == id && op.signatureOk && op.merkleOk
    && op.caller != 0 && op.caller in s.validators && s.validators[op.caller]
    && id in s.pending && !s.pending[id].status.Executed?
  }

  /** Signing succeeds exactly then. */
  lemma SignsIff(s: Bridge, op: Op)
    requires op.SignOp?
    ensures Step(s, op).1.Ok? <==> Accepts(s, op, op.id)
  {
  }

  /** The validators whose signature on the id the bridge accepted. */
  ghost function Signers(s: Bridge, ops: seq<Op>, id: TransferId): set<Address>
    decreases |ops|
  {
    if ops == [] then {}
    else
      var front, last := ops[..|ops| - 1], ops[|ops| - 1];
      Signers(s, front, id) + if Accepts(Run(s, front), last, id) then {last.caller} else {}
  }

  /** Call i is an accepted signature that brings the id's signers to the threshold of that moment, and to one at
      least. */
  ghost predicate CompletingAt(s: Bridge, ops: seq<Op>, id: TransferId, i: nat)
    requires i < |ops|
  {
    && Accepts(Run(s, ops[..i]), ops[i], id)
    && |Signers(s, ops[..i + 1], id)| >= Run(s, ops[..i]).threshold
    && Signers(s, ops[..i + 1], id) != {}
  }

  ghost predicate Approved(s: Bridge, ops: seq<Op>, id: TransferId) {
    exists i :: 0 <= i < |ops| && CompletingAt(s, ops, id, i)
  }

  lemma ApprovedLater(s: Bridge, ops: seq<Op>, id: TransferId)
    requires ops != [] && Approved(s, ops[..|ops| - 1], id)
    ensures Approved(s, ops, id)
  {
    var front := ops[..|ops| - 1];
    var i :| 0 <= i < |front| && CompletingAt(s, front, id, i);
    assert front[..i] == ops[..i] && front[..i + 1] == ops[..i + 1] && front[i] == ops[i];
    assert CompletingAt(s, ops, id, i);
  }

  ghost predicate NeedsApproval(s: Bridge, id: TransferId) {
    id in s.completed || (id in s.pending && s.pending[id].status in {SignaturesComplete, Executed})
  }

  lemma StepSigns(s: Bridge, op: Op, id: TransferId)
    ensures SignaturesOf(Step(s, op).0.pending, id) ==
              SignaturesOf(s.pending, id) + if Accepts(s, op, id) then {op.caller} else {}
  {
    if op.SignOp? { SignsIff(s, op); }
    hide Step;
    StepWrites(s, op);
  }

  lemma OnlySigningCompletes(s: Bridge, op: Op, id: TransferId)
    requires !Accepts(s, op, id) && NeedsApproval(Step(s, op).0, id)
    ensures NeedsApproval(s, id)
  {
    if op.SignOp? { SignsIff(s, op); }
    hide Step;
    StepWrites(s, op);
  }

  /** Where a transfer newly becomes executable, it is by a signature that reaches the threshold. */
  lemma StepApproves(s: Bridge, op: Op, id: TransferId)
    requires Inv(s) && !NeedsApproval(s, id) && NeedsApproval(Step(s, op).0, id)
    ensures Accepts(s, op, id) && |SignaturesOf(Step(s, op).0.pending, id)| >= s.threshold
  {
    if !Accepts(s, op, id) { OnlySigningCompletes(s, op, id); }
    StepKeepsInv(s, op);
    assert Recorded(Step(s, op).0, id);
    hide Step, Inv, RecordsSound;
    StepWrites(s, op);
  }

  lemma SubsetCard(a: set<Address>, b: set<Address>)
    requires a <= b
    ensures |a| <= |b|
  {
    assert b == a + (b - a);
  }

  lemma {:induction false} RunApproves(s: Bridge, ops: seq<Op>, id: TransferId)
    requires Inv(s) && s.pending == map[] && s.completed == {}
    ensures SignaturesOf(Run(s, ops).pending, id) <= Signers(s, ops, id)
    ensures NeedsApproval(Run(s, ops), id) ==> Approved(s, ops, id)
    decreases |ops|
  {
    if ops != [] {
      var front, last := ops[..|ops| - 1], ops[|ops| - 1];
      var mid := Run(s, front);
      RunApproves(s, front, id);
      RunKeepsInv(s, front);
      StepSigns(mid, last, id);
      hide Step, Inv, SignaturesOf, Approved, Accepts;
      if NeedsApproval(Run(s, ops), id) {
        if NeedsApproval(mid, id) {
          ApprovedLater(s, ops, id);
        } else {
          StepApproves(mid, last, id);
          SubsetCard(SignaturesOf(Run(s, ops).pending, id), Signers(s, ops, id));
          assert ops[..|ops| - 1 + 1] == ops;
          LastCompletes(s, ops, id);
        }
      }
    }
  }

  lemma LastCompletes(s: Bridge, ops: seq<Op>, id: TransferId)
    requires ops != [] && ops[..|ops| - 1 + 1] == ops && CompletingAt(s, ops, id, |ops| - 1)
    ensures Approved(s, ops, id)
  {
  }

  /** A transfer executes only after distinct validators, at least one and at least the threshold in force at the
      completing signature, have signed it. */
  lemma ExecutedOnlyApproved(chainId: ChainId, threshold: nat, tokens: Ledger, ops: seq<Op>, id: TransferId)
    ensures var s0 := Deployed(chainId, threshold, tokens);
            id in Run(s0, ops).completed ==> Approved(s0, ops, id)
  {
    DeployedInv(chainId, threshold, tokens);
    RunApproves(Deployed(chainId, threshold, tokens), ops, id);
  }

  // ----- transfers to other chains

  lemma StepKeepsRemoteLock(s: Bridge, op: Op, k: Lock)
    requires Inv(s) && k.0 != s.chainId
    ensures Get(Step(s, op).0.locked, k) >= Get(s.locked, k)
  {
    if op.ExecuteOp? && op.id in s.pending { assert Recorded(s, op.id); }
    hide Moved, Minted, Inv, RecordsSound, Recorded, Opened, Signed;
  }

  lemma {:induction false} RemoteLockNeverFalls(s: Bridge, ops: seq<Op>, k: Lock)
    requires Inv(s) && k.0 != s.chainId
    ensures Get(Run(s, ops).locked, k) >= Get(s.locked, k)
    decreases |ops|
  {
    hide Step, Inv;
    if ops != [] {
      RemoteLockNeverFalls(s, ops[..|ops| - 1], k);
      RunKeepsInv(s, ops[..|ops| - 1]);
      StepKeepsRemoteLock(Run(s, ops[..|ops| - 1]), ops[|ops| - 1], k);
    }
  }

  /** Records live where they were initiated and execute only where they are addressed to: what is sent to another chain
      never executes, and its lock is never released. */
  lemma RemoteNeverSettles(chainId: ChainId, threshold: nat, tokens: Ledger, ops: seq<Op>, more: seq<Op>,
                            id: TransferId)
    requires id.target != chainId
    ensures var s := Run(Deployed(chainId, threshold, tokens), ops);
            && id !in Run(s, more).completed
            && Get(Run(s, more).locked, LockOf(id)) >= Get(s.locked, LockOf(id))
  {
    var s0 := Deployed(chainId, threshold, tokens);
    DeployedInv(chainId, threshold, tokens);
    RunKeepsInv(s0, ops);
    RunKeepsInv(Run(s0, ops), more);
    RemoteLockNeverFalls(Run(s0, ops), more, LockOf(id));
  }
}
