/** Bridge transfers: lock at initiation, collect signatures, release or mint at execution. */
module BridgeTransfers {
  import opened Sums
  import opened TokenLedger

  type ChainId = nat
  type Lock = (ChainId, Address)

  /** Keccak hashes of packed fixed-size fields; the two kinds differ in length, so they never collide. */
  datatype TransferId =
    | PublicId(target: ChainId, sender: Address, receiver: Holder, asset: Address, amount: nat, timestamp: nat,
               height: nat)
    | PrivateId(target: ChainId, sender: Address, stealthReceiver: nat, asset: Address, encryptedAmount: nat,
                timestamp: nat)

  datatype Status = Pending | SourceConfirmed | SignaturesComplete | Executed | Failed

  datatype Transfer = Transfer(
    sourceChain: ChainId, targetChain: ChainId, sender: Address, receiver: Holder, asset: Address, amount: nat,
    signatures: set<Address>, signatureCount: nat, status: Status)

  datatype Error =
    | NotOwner | ChainNotSupported | ChainAlreadyAdded | ValidatorAlreadyExists | InsufficientSignatures
    | TransferAlreadyCompleted | TransferNotFound | InvalidMerkleProof | InvalidZKProof | NotValidator
    | ValidatorNotActive | InsufficientLockedAssets | LockFailed | ReleaseFailed | MintFailed

  datatype Outcome = Ok | Revert(error: Error)

  /** Storage and the token ledger, and as history: the ids released from the lock, the number of private initiations
      per lock, and what repeated initiations of a pending id locked again. */
  datatype Bridge = Bridge(
    chainId: ChainId,
    activeChains: set<ChainId>,
    wrapped: map<Lock, Address>,
    locked: map<Lock, nat>,
    validators: map<Address, bool>,
    threshold: nat,
    pending: map<TransferId, Transfer>,
    completed: set<TransferId>,
    tokens: Ledger,
    released: set<TransferId>,
    privates: map<Lock, nat>,
    repeated: map<Lock, nat>)

  // ----- what each call does

  function SignaturesOf(pending: map<TransferId, Transfer>, id: TransferId): set<Address> {
    if id in pending then pending[id].signatures else {}
  }

  /** A fresh record, except that the signatures already stored under the id stay. */
  function Opened(s: Bridge, id: TransferId): Transfer {
    Transfer(s.chainId, id.target, id.sender, if id.PublicId? then id.receiver else Account(0), id.asset, Value(id),
             SignaturesOf(s.pending, id), 0, Pending)
  }

  /** The amount on record: private initiations hide theirs. */
  function Value(id: TransferId): nat {
    if id.PublicId? then id.amount else 0
  }

  function LockOf(id: TransferId): Lock {
    (id.target, id.asset)
  }

  function Added(m: map<Lock, nat>, k: Lock, n: nat): map<Lock, nat> {
    m[k := Get(m, k) + n]
  }

  /** `approved` is the sender's allowance for the bridge. */
  function Initiate(s: Bridge, id: TransferId, approved: bool): (Bridge, Outcome)
    requires id.PublicId?
  {
    if id.target !in s.activeChains then (s, Revert(ChainNotSupported))
    else if id in s.completed then (s, Revert(TransferAlreadyCompleted))
    else if !approved || BalanceOf(s.tokens, id.asset, Account(id.sender)) < id.amount then (s, Revert(LockFailed))
    else
      (s.(tokens := Moved(s.tokens, id.asset, Account(id.sender), Contract, id.amount),
          locked := Added(s.locked, LockOf(id), id.amount),
          repeated := if id in s.pending then Added(s.repeated, LockOf(id), id.amount) else s.repeated,
          pending := s.pending[id := Opened(s, id)]), Ok)
  }

  function InitiatePrivate(s: Bridge, id: TransferId, proofOk: bool): (Bridge, Outcome)
    requires id.PrivateId?
  {
    if id.target !in s.activeChains then (s, Revert(ChainNotSupported))
    else if !proofOk then (s, Revert(InvalidZKProof))
    else
      (s.(locked := Added(s.locked, LockOf(id), 1),
          privates := Added(s.privates, LockOf(id), 1),
          pending := s.pending[id := Opened(s, id)]), Ok)
  }

  function Signed(t: Transfer, v: Address, threshold: nat): Transfer {
    var count := if v in t.signatures then t.signatureCount else t.signatureCount + 1;
    t.(signatures := t.signatures + {v}, signatureCount := count,
       status := if count >= threshold then SignaturesComplete else SourceConfirmed)
  }

  function Sign(s: Bridge, caller: Address, id: TransferId, signatureOk: bool, merkleOk: bool): (Bridge, Outcome) {
    if caller == 0 || caller !in s.validators then (s, Revert(NotValidator))
    else if !s.validators[caller] then (s, Revert(ValidatorNotActive))
    else if id !in s.pending then (s, Revert(TransferNotFound))
    else if s.pending[id].status == Executed then (s, Revert(TransferAlreadyCompleted))
    else if !signatureOk then (s, Revert(InvalidZKProof))
    else if !merkleOk then (s, Revert(InvalidMerkleProof))
    else (s.(pending := s.pending[id := Signed(s.pending[id], caller, s.threshold)]), Ok)
  }

  function Minted(l: Ledger, token: Address, receiver: Holder, amount: nat): (l': Ledger)
    ensures forall t: Address, h: Holder ::
              BalanceOf(l', t, h) == BalanceOf(l, t, h) + if (t, h) == (token, receiver) then amount else 0
  {
    l[(token, receiver) := BalanceOf(l, token, receiver) + amount]
  }

  function Done(s: Bridge, id: TransferId): Bridge
    requires id in s.pending
  {
    s.(pending := s.pending[id := s.pending[id].(status := Executed)], completed := s.completed + {id})
  }

  function Execute(s: Bridge, id: TransferId, mintOk: bool): (Bridge, Outcome) {
    if id !in s.pending then (s, Revert(TransferNotFound))
    else
      var t := s.pending[id];
      if t.status != SignaturesComplete then (s, Revert(InsufficientSignatures))
      else if t.targetChain != s.chainId then (s, Revert(ChainNotSupported))
      else if id in s.completed then (s, Revert(TransferAlreadyCompleted))
      else
        var k := (t.sourceChain, t.asset);
        var w := Get(s.wrapped, k);
        if w != 0 then
          if !mintOk then (s, Revert(MintFailed))
          else (Done(s.(tokens := Minted(s.tokens, w, t.receiver, t.amount)), id), Ok)
        else if Get(s.locked, k) < t.amount then (s, Revert(InsufficientLockedAssets))
        else if BalanceOf(s.tokens, t.asset, Contract) < t.amount then (s, Revert(ReleaseFailed))
        else
          (Done(Released(s, id), id), Ok)
  }

  function Released(s: Bridge, id: TransferId): Bridge
    requires id in s.pending
    requires s.pending[id].amount <= Get(s.locked, (s.pending[id].sourceChain, s.pending[id].asset))
    requires s.pending[id].amount <= BalanceOf(s.tokens, s.pending[id].asset, Contract)
  {
    var t := s.pending[id];
    var k := (t.sourceChain, t.asset);
    s.(tokens := Moved(s.tokens, t.asset, Contract, t.receiver, t.amount),
       locked := s.locked[k := Get(s.locked, k) - t.amount],
       released := s.released + {id})
  }

  function AddChain(s: Bridge, byOwner: bool, chain: ChainId): (Bridge, Outcome) {
    if !byOwner then (s, Revert(NotOwner))
    else if chain in s.activeChains then (s, Revert(ChainAlreadyAdded))
    else (s.(activeChains := s.activeChains + {chain}), Ok)
  }

  function RegisterWrapped(s: Bridge, byOwner: bool, k: Lock, localAsset: Address): (Bridge, Outcome) {
    if !byOwner then (s, Revert(NotOwner)) else (s.(wrapped := s.wrapped[k := localAsset]), Ok)
  }

  /** The zero address never counts as registered. */
  function AddValidator(s: Bridge, byOwner: bool, v: Address): (Bridge, Outcome) {
    if !byOwner then (s, Revert(NotOwner))
    else if v != 0 && v in s.validators then (s, Revert(ValidatorAlreadyExists))
    else (s.(validators := s.validators[v := true]), Ok)
  }

  function SetThreshold(s: Bridge, byOwner: bool, n: nat): (Bridge, Outcome) {
    if !byOwner then (s, Revert(NotOwner)) else (s.(threshold := n), Ok)
  }

  function DeactivateChain(s: Bridge, byOwner: bool, chain: ChainId): (Bridge, Outcome) {
    if !byOwner then (s, Revert(NotOwner)) else (s.(activeChains := s.activeChains - {chain}), Ok)
  }

  function DeactivateValidator(s: Bridge, byOwner: bool, v: Address): (Bridge, Outcome) {
    if !byOwner then (s, Revert(NotOwner))
    else if v in s.validators then (s.(validators := s.validators[v := false]), Ok)
    else (s, Ok)
  }

  // ----- what is owed

  /** The amounts of open transfers behind one lock. */
  ghost function OwedAt(open: set<TransferId>, k: Lock): nat {
    Sum(Behind(open, k))
  }

  function Behind(open: set<TransferId>, k: Lock): map<TransferId, nat> {
    map id | id in open && LockOf(id) == k :: Value(id)
  }

  /** The amounts of open transfers of one token, whatever their target. */
  ghost function OwedIn(open: set<TransferId>, asset: Address): nat {
    Sum(OfAsset(open, asset))
  }

  function OfAsset(open: set<TransferId>, asset: Address): map<TransferId, nat> {
    map id | id in open && id.asset == asset :: Value(id)
  }

  lemma OpenOne(open: set<TransferId>, id: TransferId, k: Lock, asset: Address)
    requires id !in open
    ensures OwedAt(open + {id}, k) == OwedAt(open, k) + if k == LockOf(id) then Value(id) else 0
    ensures OwedIn(open + {id}, asset) == OwedIn(open, asset) + if asset == id.asset then Value(id) else 0
  {
    if k == LockOf(id) {
      SumUpdate(Behind(open, k), id, Value(id));
      assert Behind(open + {id}, k) == Behind(open, k)[id := Value(id)];
    } else {
      assert Behind(open + {id}, k) == Behind(open, k);
    }
    if asset == id.asset {
      SumUpdate(OfAsset(open, asset), id, Value(id));
      assert OfAsset(open + {id}, asset) == OfAsset(open, asset)[id := Value(id)];
    } else {
      assert OfAsset(open + {id}, asset) == OfAsset(open, asset);
    }
  }

  lemma CloseOne(open: set<TransferId>, id: TransferId, k: Lock, asset: Address)
    requires id in open
    ensures OwedAt(open, k) == OwedAt(open - {id}, k) + if k == LockOf(id) then Value(id) else 0
    ensures OwedIn(open, asset) == OwedIn(open - {id}, asset) + if asset == id.asset then Value(id) else 0
  {
    OpenOne(open - {id}, id, k, asset);
    assert open - {id} + {id} == open;
  }

  // ----- the invariant

  ghost function Open(s: Bridge): set<TransferId> {
    s.pending.Keys - s.released
  }

  /** A record says what its id says; only its signatures and status move. */
  ghost predicate Recorded(s: Bridge, id: TransferId)
    requires id in s.pending
  {
    var t := s.pending[id];
    && t.sourceChain == s.chainId && t.targetChain == id.target && t.asset == id.asset && t.amount == Value(id)
    && t.sender == id.sender && (id.PublicId? ==> t.receiver == id.receiver)
    && t.signatureCount <= |t.signatures| && t.signatures <= s.validators.Keys
    && (t.status.SignaturesComplete? ==> t.signatures != {})
    && (t.status.Executed? ==> id in s.completed)
    && (id in s.completed && id.PublicId? ==> t.status.Executed?)
  }

  ghost predicate RecordsSound(s: Bridge) {
    && (forall id :: id in s.pending ==> Recorded(s, id))
    && s.released <= s.completed <= s.pending.Keys
    && (forall id :: id in s.completed ==> id.target == s.chainId)
  }

  ghost predicate LockSound(s: Bridge, k: Lock) {
    Get(s.locked, k) == OwedAt(Open(s), k) + Get(s.privates, k) + Get(s.repeated, k)
  }

  ghost predicate Covered(s: Bridge, asset: Address) {
    BalanceOf(s.tokens, asset, Contract) >= OwedIn(Open(s), asset)
  }

  ghost predicate Inv(s: Bridge) {
    && RecordsSound(s)
    && (forall k :: LockSound(s, k))
    && (forall a :: Covered(s, a))
  }

  function Deployed(chainId: ChainId, threshold: nat, tokens: Ledger): Bridge {
    Bridge(chainId, {}, map[], map[], map[], threshold, map[], {}, tokens, {}, map[], map[])
  }

  lemma DeployedInv(chainId: ChainId, threshold: nat, tokens: Ledger)
    ensures Inv(Deployed(chainId, threshold, tokens))
  {
    var s := Deployed(chainId, threshold, tokens);
    forall k ensures LockSound(s, k) { assert Behind(Open(s), k) == map[]; }
    forall a ensures Covered(s, a) { assert OfAsset(Open(s), a) == map[]; }
  }

  // ----- every call keeps it

  lemma InitiateKeepsRecords(s: Bridge, id: TransferId, approved: bool)
    requires RecordsSound(s) && id.PublicId?
    ensures RecordsSound(Initiate(s, id, approved).0)
  {
    hide Moved, Added;
    var s' := Initiate(s, id, approved).0;
    forall i | i in s'.pending ensures Recorded(s', i) { if i in s.pending { assert Recorded(s, i); } }
  }

  lemma InitiateKeepsBooks(s: Bridge, id: TransferId, approved: bool, k: Lock, a: Address)
    requires Inv(s) && id.PublicId?
    ensures LockSound(Initiate(s, id, approved).0, k) && Covered(Initiate(s, id, approved).0, a)
  {
    hide Moved, Opened, OwedAt, OwedIn, RecordsSound;
    var (s', r) := Initiate(s, id, approved);
    assert LockSound(s, k) && Covered(s, a);
    if r.Ok? {
      InitiatedIsOpen(s, id);
      if id in s.pending {
        assert Open(s') == Open(s);
      } else {
        assert Open(s') == Open(s) + {id};
        OpenOne(Open(s), id, k, a);
      }
    }
  }

  lemma InitiateKeepsInv(s: Bridge, id: TransferId, approved: bool)
    requires Inv(s) && id.PublicId?
    ensures Inv(Initiate(s, id, approved).0)
  {
    hide Initiate, LockSound, Covered, RecordsSound;
    InitiateKeepsRecords(s, id, approved);
    forall k ensures LockSound(Initiate(s, id, approved).0, k) { InitiateKeepsBooks(s, id, approved, k, 0); }
    forall a ensures Covered(Initiate(s, id, approved).0, a) { InitiateKeepsBooks(s, id, approved, LockOf(id), a); }
  }

  lemma InitiatedIsOpen(s: Bridge, id: TransferId)
    requires RecordsSound(s) && id !in s.completed
    ensures id !in s.released
  {
  }

  lemma InitiatePrivateKeepsRecords(s: Bridge, id: TransferId, proofOk: bool)
    requires RecordsSound(s) && id.PrivateId?
    ensures RecordsSound(InitiatePrivate(s, id, proofOk).0)
  {
    hide Added;
    var s' := InitiatePrivate(s, id, proofOk).0;
    forall i | i in s'.pending ensures Recorded(s', i) { if i in s.pending { assert Recorded(s, i); } }
  }

  lemma InitiatePrivateKeepsBooks(s: Bridge, id: TransferId, proofOk: bool, k: Lock, a: Address)
    requires Inv(s) && id.PrivateId?
    ensures LockSound(InitiatePrivate(s, id, proofOk).0, k) && Covered(InitiatePrivate(s, id, proofOk).0, a)
  {
    hide Opened, OwedAt, OwedIn;
    var (s', r) := InitiatePrivate(s, id, proofOk);
    assert LockSound(s, k) && Covered(s, a);
    if r.Ok? {
      if id in s.pending {
        assert Open(s') == Open(s);
      } else {
        assert Open(s') == Open(s) + {id};
        OpenOne(Open(s), id, k, a);
      }
    }
  }

  lemma InitiatePrivateKeepsInv(s: Bridge, id: TransferId, proofOk: bool)
    requires Inv(s) && id.PrivateId?
    ensures Inv(InitiatePrivate(s, id, proofOk).0)
  {
    hide InitiatePrivate, LockSound, Covered, RecordsSound;
    InitiatePrivateKeepsRecords(s, id, proofOk);
    var s' := InitiatePrivate(s, id, proofOk).0;
    forall k ensures LockSound(s', k) { InitiatePrivateKeepsBooks(s, id, proofOk, k, 0); }
    forall a ensures Covered(s', a) { InitiatePrivateKeepsBooks(s, id, proofOk, LockOf(id), a); }
  }

  lemma OneMoreSigner(signatures: set<Address>, v: Address)
    ensures v in signatures ==> signatures + {v} == signatures
    ensures v !in signatures ==> |signatures + {v}| == |signatures| + 1
  {
  }

  lemma SignedRecord(s: Bridge, s': Bridge, caller: Address, id: TransferId)
    requires id in s.pending && Recorded(s, id) && caller in s.validators && !s.pending[id].status.Executed?
    requires id in s'.pending && s'.pending[id] == Signed(s.pending[id], caller, s.threshold)
    requires s'.chainId == s.chainId && s'.completed == s.completed && s'.validators == s.validators
    ensures Recorded(s', id)
  {
    OneMoreSigner(s.pending[id].signatures, caller);
  }

  lemma SignKeepsRecords(s: Bridge, caller: Address, id: TransferId)
    requires RecordsSound(s) && caller in s.validators && id in s.pending && s.pending[id].status != Executed
    ensures RecordsSound(s.(pending := s.pending[id := Signed(s.pending[id], caller, s.threshold)]))
  {
    var s' := s.(pending := s.pending[id := Signed(s.pending[id], caller, s.threshold)]);
    forall i | i in s'.pending ensures Recorded(s', i) {
      assert Recorded(s, i);
      if i == id { SignedRecord(s, s', caller, id); }
    }
    hide Signed;
  }

  lemma SignKeepsInv(s: Bridge, caller: Address, id: TransferId, signatureOk: bool, merkleOk: bool)
    requires Inv(s)
    ensures Inv(Sign(s, caller, id, signatureOk, merkleOk).0)
  {
    hide OwedAt, OwedIn, RecordsSound, Signed;
    var (s', r) := Sign(s, caller, id, signatureOk, merkleOk);
    if r.Ok? {
      SignKeepsRecords(s, caller, id);
      assert Open(s') == Open(s);
      forall k ensures LockSound(s', k) { assert LockSound(s, k); }
      forall a ensures Covered(s', a) { assert Covered(s, a); }
    }
  }

  /** Execution fails for no reason of the bridge's own books: the lock and the tokens behind it always suffice. */
  lemma ExecutesIff(s: Bridge, id: TransferId, mintOk: bool)
    requires Inv(s)
    ensures Execute(s, id, mintOk).1.Ok? <==>
              && id in s.pending && s.pending[id].status.SignaturesComplete?
              && id.target == s.chainId && id !in s.completed
              && (Get(s.wrapped, LockOf(id)) == 0 || mintOk)
    ensures Execute(s, id, mintOk).1 != Revert(InsufficientLockedAssets)
    ensures Execute(s, id, mintOk).1 != Revert(ReleaseFailed)
  {
    if id in s.pending {
      assert Recorded(s, id);
      assert LockSound(s, LockOf(id)) && Covered(s, id.asset);
      if id !in s.completed { CloseOne(Open(s), id, LockOf(id), id.asset); }
    }
    hide OwedAt, OwedIn, Moved, Minted, Done;
  }

  lemma DoneKeepsRecords(s: Bridge, id: TransferId)
    requires RecordsSound(s) && id in s.pending && id.target == s.chainId
    ensures RecordsSound(Done(s, id)) && RecordsSound(Done(s, id).(released := s.released + {id}))
  {
    var s' := Done(s, id);
    forall i | i in s'.pending ensures Recorded(s', i) && Recorded(s'.(released := s.released + {id}), i) {
      assert Recorded(s, i);
    }
  }

  lemma OnlyRecords(s: Bridge, s': Bridge)
    requires RecordsSound(s)
    requires s' == s.(tokens := s'.tokens, locked := s'.locked)
    ensures RecordsSound(s')
  {
    forall i | i in s'.pending ensures Recorded(s', i) { assert Recorded(s, i); }
  }

  lemma ExecuteKeepsRecords(s: Bridge, id: TransferId, mintOk: bool)
    requires RecordsSound(s)
    ensures RecordsSound(Execute(s, id, mintOk).0)
  {
    var (s', r) := Execute(s, id, mintOk);
    if r.Ok? {
      assert Recorded(s, id);
      hide RecordsSound, Recorded, Moved, Minted, Get, BalanceOf;
      DoneKeepsRecords(s, id);
      var done := Done(s, id);
      OnlyRecords(if Get(s.wrapped, LockOf(id)) != 0 then done else done.(released := s.released + {id}), s');
    }
  }

  lemma ReleaseKeepsBooks(s: Bridge, id: TransferId, k: Lock, a: Address)
    requires LockSound(s, k) && Covered(s, a) && id in Open(s) && Recorded(s, id) && id.target == s.chainId
    requires Value(id) <= Get(s.locked, LockOf(id)) && Value(id) <= BalanceOf(s.tokens, id.asset, Contract)
    ensures LockSound(Done(Released(s, id), id), k) && Covered(Done(Released(s, id), id), a)
  {
    CloseOne(Open(s), id, k, a);
    hide OwedAt, OwedIn, Moved;
    assert Open(Done(Released(s, id), id)) == Open(s) - {id};
  }

  lemma MintKeepsBooks(s: Bridge, id: TransferId, w: Address, k: Lock, a: Address)
    requires LockSound(s, k) && Covered(s, a) && id in s.pending
    ensures var s' := Done(s.(tokens := Minted(s.tokens, w, s.pending[id].receiver, s.pending[id].amount)), id);
            LockSound(s', k) && Covered(s', a)
  {
    hide OwedAt, OwedIn, Minted;
    var s' := Done(s.(tokens := Minted(s.tokens, w, s.pending[id].receiver, s.pending[id].amount)), id);
    assert Open(s') == Open(s);
  }

  lemma ExecuteKeepsBooks(s: Bridge, id: TransferId, mintOk: bool, k: Lock, a: Address)
    requires Inv(s) && Execute(s, id, mintOk).1.Ok?
    ensures LockSound(Execute(s, id, mintOk).0, k) && Covered(Execute(s, id, mintOk).0, a)
  {
    assert Recorded(s, id);
    assert LockSound(s, k) && Covered(s, a);
    InitiatedIsOpen(s, id);
    hide Done, RecordsSound, Minted, Released, LockSound, Covered, BalanceOf, Get;
    if Get(s.wrapped, LockOf(id)) != 0 {
      MintKeepsBooks(s, id, Get(s.wrapped, LockOf(id)), k, a);
    } else {
      ReleaseKeepsBooks(s, id, k, a);
    }
  }

  lemma ExecuteKeepsInv(s: Bridge, id: TransferId, mintOk: bool)
    requires Inv(s)
    ensures Inv(Execute(s, id, mintOk).0)
  {
    hide Recorded, RecordsSound, LockSound, Covered, Moved, Minted, Done;
    ExecuteKeepsRecords(s, id, mintOk);
    if Execute(s, id, mintOk).1.Ok? {
      forall k ensures LockSound(Execute(s, id, mintOk).0, k) { ExecuteKeepsBooks(s, id, mintOk, k, 0); }
      forall a ensures Covered(Execute(s, id, mintOk).0, a) { ExecuteKeepsBooks(s, id, mintOk, LockOf(id), a); }
    }
  }

  /** Alike in everything but the configuration. */
  ghost predicate SameBooks(s: Bridge, s': Bridge) {
    && s'.chainId == s.chainId && s'.locked == s.locked && s'.pending == s.pending && s'.completed == s.completed
    && s'.tokens == s.tokens && s'.released == s.released && s'.privates == s.privates && s'.repeated == s.repeated
  }

  /** Owner calls touch no record, lock or token; validators stay on the books. */
  lemma AdminKeepsInv(s: Bridge, s': Bridge)
    requires Inv(s)
    requires SameBooks(s, s') && s.validators.Keys <= s'.validators.Keys
    ensures Inv(s')
  {
    hide OwedAt, OwedIn;
    forall i | i in s'.pending ensures Recorded(s', i) { assert Recorded(s, i); }
    assert Open(s') == Open(s);
    forall k ensures LockSound(s', k) { assert LockSound(s, k); }
    forall a ensures Covered(s', a) { assert Covered(s, a); }
  }

  /** Others may move their own tokens, to the bridge too. */
  lemma OutsideKeepsInv(s: Bridge, token: Address, sender: Address, to: Holder, amount: nat)
    requires Inv(s) && amount <= BalanceOf(s.tokens, token, Account(sender))
    ensures Inv(s.(tokens := Moved(s.tokens, token, Account(sender), to, amount)))
  {
    hide OwedAt, OwedIn, Moved;
    var s' := s.(tokens := Moved(s.tokens, token, Account(sender), to, amount));
    forall i | i in s'.pending ensures Recorded(s', i) { assert Recorded(s, i); }
    assert Open(s') == Open(s);
    forall k ensures LockSound(s', k) { assert LockSound(s, k); }
    forall a ensures Covered(s', a) { assert Covered(s, a); }
  }
}
