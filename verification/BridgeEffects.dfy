/** What a user of the bridge can check about each call: when it succeeds, whose money it moves, and what it records. */
module BridgeEffects {
  import opened Sums
  import opened TokenLedger
  import opened BridgeTransfers
  import opened BridgeRuns

  /** Nothing but one record differs. */
  ghost predicate OnlyRecord(s: Bridge, s': Bridge, id: TransferId) {
    && s' == s.(pending := s'.pending)
    && (forall j :: j != id ==> (j in s'.pending <==> j in s.pending))
    && (forall j :: j != id && j in s.pending ==> s'.pending[j] == s.pending[j])
  }

  /** A public initiation succeeds exactly towards a supported chain, for an id not yet completed, when the sender has
      allowed and owns the amount; the tokens move from the sender to the bridge and nowhere else, one lock grows by
      them, and the record names sender, receiver, asset and amount of the call. */
  lemma InitiateEffect(s: Bridge, target: ChainId, sender: Address, receiver: Holder, asset: Address, amount: nat,
                       timestamp: nat, height: nat, approved: bool, t: Address, h: Holder, k: Lock)
    ensures var id := PublicId(target, sender, receiver, asset, amount, timestamp, height);
            var (s', r) := Initiate(s, id, approved);
            && (r.Ok? <==>
                  && target in s.activeChains && id !in s.completed && approved
                  && amount <= BalanceOf(s.tokens, asset, Account(sender)))
            && (r.Revert? ==> s' == s)
            && (r.Ok? ==>
                  && BalanceOf(s'.tokens, t, h) ==
                     BalanceOf(s.tokens, t, h)
                     - (if t == asset && h == Account(sender) then amount else 0)
                     + (if t == asset && h == Contract then amount else 0)
                  && Get(s'.locked, k) == Get(s.locked, k) + (if k == (target, asset) then amount else 0)
                  && id in s'.pending
                  && s'.pending[id] == Transfer(s.chainId, target, sender, receiver, asset, amount,
                                                SignaturesOf(s.pending, id), 0, Pending)
                  && OnlyRecord(s.(tokens := s'.tokens, locked := s'.locked, repeated := s'.repeated), s', id))
  {
    hide Moved;
  }

  /** A private initiation succeeds exactly towards a supported chain with a proof; it moves no tokens and counts one.
      */
  lemma InitiatePrivateEffect(s: Bridge, target: ChainId, sender: Address, stealthReceiver: nat, asset: Address,
                              encryptedAmount: nat, timestamp: nat, proofOk: bool, k: Lock)
    ensures var id := PrivateId(target, sender, stealthReceiver, asset, encryptedAmount, timestamp);
            var (s', r) := InitiatePrivate(s, id, proofOk);
            && (r.Ok? <==> target in s.activeChains && proofOk)
            && (r.Revert? ==> s' == s)
            && (r.Ok? ==>
                  && Get(s'.locked, k) == Get(s.locked, k) + (if k == (target, asset) then 1 else 0)
                  && id in s'.pending
                  && s'.pending[id] == Transfer(s.chainId, target, sender, Account(0), asset, 0,
                                                SignaturesOf(s.pending, id), 0, Pending)
                  && OnlyRecord(s.(locked := s'.locked, privates := s'.privates), s', id))
  {
  }

  /** A signature is recorded exactly from a registered, active validator on a pending transfer not yet executed, when
      signature and proof check; a second one by the same validator is not counted, and the status says whether the
      count reaches the threshold. */
  lemma SignEffect(s: Bridge, v: Address, id: TransferId, signatureOk: bool, merkleOk: bool)
    ensures var (s', r) := Sign(s, v, id, signatureOk, merkleOk);
            && (r.Ok? <==>
                  && v != 0 && v in s.validators && s.validators[v]
                  && id in s.pending && s.pending[id].status != Executed && signatureOk && merkleOk)
            && (r.Revert? ==> s' == s)
            && (r.Ok? ==>
                  var t, t' := s.pending[id], s'.pending[id];
                  && OnlyRecord(s, s', id) && id in s'.pending
                  && t' == t.(signatures := t'.signatures, signatureCount := t'.signatureCount, status := t'.status)
                  && t'.signatures == t.signatures + {v}
                  && t'.signatureCount == t.signatureCount + (if v in t.signatures then 0 else 1)
                  && t'.status == if t'.signatureCount >= s.threshold then SignaturesComplete else SourceConfirmed)
  {
  }

  lemma DoneEffect(s: Bridge, id: TransferId)
    requires id in s.pending
    ensures id in Done(s, id).pending && Done(s, id).completed == s.completed + {id}
    ensures Done(s, id).pending[id] == s.pending[id].(status := Executed)
    ensures OnlyRecord(s.(completed := s.completed + {id}), Done(s, id), id)
  {
  }

  /** Execution completes one id and marks its record; no other record changes. */
  lemma ExecuteRecords(s: Bridge, id: TransferId, mintOk: bool)
    ensures var (s', r) := Execute(s, id, mintOk);
            && (r.Revert? ==> s' == s)
            && (r.Ok? ==>
                  && id in s.pending && id in s'.pending
                  && s'.completed == s.completed + {id}
                  && s'.pending[id] == s.pending[id].(status := Executed)
                  && OnlyRecord(s.(tokens := s'.tokens, locked := s'.locked, released := s'.released,
                                   completed := s'.completed), s', id))
  {
    hide Moved, Minted, Done, BalanceOf, Get, OnlyRecord;
    var (s', r) := Execute(s, id, mintOk);
    if r.Ok? {
      var t := s.pending[id];
      var paid := if Get(s.wrapped, (t.sourceChain, t.asset)) != 0
                  then s.(tokens := Minted(s.tokens, Get(s.wrapped, (t.sourceChain, t.asset)), t.receiver, t.amount))
                  else Released(s, id);
      assert s' == Done(paid, id);
      DoneEffect(paid, id);
      PaidOnly(s, paid, s', id);
    }
  }

  lemma PaidOnly(s: Bridge, paid: Bridge, s': Bridge, id: TransferId)
    requires paid == s.(tokens := paid.tokens, locked := paid.locked, released := paid.released)
    requires OnlyRecord(paid.(completed := s'.completed), s', id)
    ensures OnlyRecord(s.(tokens := s'.tokens, locked := s'.locked, released := s'.released, completed := s'.completed),
                       s', id)
  {
  }

  /** Only the executed transfer's own lock falls, by its amount, and only where it releases. */
  lemma ExecuteLocks(s: Bridge, id: TransferId, mintOk: bool, k: Lock)
    requires Inv(s) && Execute(s, id, mintOk).1.Ok?
    ensures Get(Execute(s, id, mintOk).0.locked, k) ==
            Get(s.locked, k) - if k == LockOf(id) && Get(s.wrapped, k) == 0 then Value(id) else 0
  {
    assert Recorded(s, id);
    hide Inv, RecordsSound, Recorded, Moved, Minted;
  }

  // ----- the owner's calls, each refused to everybody else

  lemma AddChainEffect(s: Bridge, byOwner: bool, chain: ChainId, j: ChainId)
    ensures var (s', r) := AddChain(s, byOwner, chain);
            && (r.Ok? <==> byOwner && chain !in s.activeChains) && s' == s.(activeChains := s'.activeChains)
            && (j in s'.activeChains <==> j in s.activeChains || (r.Ok? && j == chain))
  {
    if byOwner && chain !in s.activeChains {
      assert AddChain(s, byOwner, chain) == (s.(activeChains := s.activeChains + {chain}), Ok);
    }
  }

  lemma DeactivateChainEffect(s: Bridge, byOwner: bool, chain: ChainId, j: ChainId)
    ensures var (s', r) := DeactivateChain(s, byOwner, chain);
            && (r.Ok? <==> byOwner) && s' == s.(activeChains := s'.activeChains)
            && (j in s'.activeChains <==> j in s.activeChains && !(byOwner && j == chain))
  {
    if byOwner {
      assert DeactivateChain(s, byOwner, chain) == (s.(activeChains := s.activeChains - {chain}), Ok);
    }
  }

  lemma RegisterWrappedEffect(s: Bridge, byOwner: bool, k: Lock, localAsset: Address, l: Lock)
    ensures var (s', r) := RegisterWrapped(s, byOwner, k, localAsset);
            && (r.Ok? <==> byOwner) && s' == s.(wrapped := s'.wrapped)
            && Get(s'.wrapped, l) == if byOwner && l == k then localAsset else Get(s.wrapped, l)
  {
  }

  lemma AddValidatorEffect(s: Bridge, byOwner: bool, v: Address, w: Address)
    ensures var (s', r) := AddValidator(s, byOwner, v);
            && (r.Ok? <==> byOwner && (v == 0 || v !in s.validators)) && s' == s.(validators := s'.validators)
            && (w in s'.validators <==> w in s.validators || (r.Ok? && w == v))
            && (w in s'.validators ==> s'.validators[w] == if r.Ok? && w == v then true else s.validators[w])
  {
  }

  lemma DeactivateValidatorEffect(s: Bridge, byOwner: bool, v: Address, w: Address)
    ensures var (s', r) := DeactivateValidator(s, byOwner, v);
            && (r.Ok? <==> byOwner) && s' == s.(validators := s'.validators)
            && (w in s'.validators <==> w in s.validators)
            && (w in s.validators ==> s'.validators[w] == (s.validators[w] && !(byOwner && w == v)))
  {
  }

  lemma SetThresholdEffect(s: Bridge, byOwner: bool, n: nat)
    ensures var (s', r) := SetThreshold(s, byOwner, n);
            (r.Ok? <==> byOwner) && s' == s.(threshold := if byOwner then n else s.threshold)
  {
  }

  // ----- where records come from

  /** Call i initiated this transfer, with its own arguments. */
  ghost predicate InitiatedAt(s: Bridge, ops: seq<Op>, i: nat, id: TransferId)
    requires i < |ops|
  {
    (ops[i].InitiateOp? || ops[i].InitiatePrivateOp?) && IdOf(ops[i]) == id && Step(Run(s, ops[..i]), ops[i]).1.Ok?
  }

  /** Whatever the bridge holds, signs or executes was initiated by its own sender, who paid for it if it is public. */
  lemma {:induction false} RecordsWereInitiated(s: Bridge, ops: seq<Op>, id: TransferId)
    requires s.pending == map[] && id in Run(s, ops).pending
    ensures exists i :: 0 <= i < |ops| && InitiatedAt(s, ops, i, id)
    decreases |ops|
  {
    hide Step;
    if ops != [] {
      var front, last := ops[..|ops| - 1], ops[|ops| - 1];
      StepWrites(Run(s, front), last);
      if id in Run(s, front).pending {
        RecordsWereInitiated(s, front, id);
        var i :| 0 <= i < |front| && InitiatedAt(s, front, i, id);
        assert front[..i] == ops[..i];
        assert InitiatedAt(s, ops, i, id);
      } else {
        assert InitiatedAt(s, ops, |front|, id);
      }
    }
  }
}
