/** When a pending transfer can still be signed and executed, and when repeating its initiation has made that
    impossible. */
module BridgeSettling {
  import opened TokenLedger
  import opened BridgeTransfers
  import opened BridgeRuns

  /** Who can sign: deactivated validators never come back, and the zero address never counts. */
  ghost function Able(s: Bridge): set<Address> {
    set v | v in s.validators && v != 0 && s.validators[v]
  }

  ghost function Unsigned(s: Bridge, id: TransferId): set<Address> {
    Able(s) - SignaturesOf(s.pending, id)
  }

  /** Counted signatures and signatures still to come stay short of the threshold, or nobody can sign at all. */
  ghost predicate Exhausted(s: Bridge, id: TransferId) {
    && id in s.pending && id !in s.completed
    && !s.pending[id].status.SignaturesComplete? && !s.pending[id].status.Executed?
    && (Able(s) == {} || s.pending[id].signatureCount + |Unsigned(s, id)| < s.threshold)
  }

  /** Repeating an initiation clears the count but not the signatures, so signers cannot be counted again: it leaves the
      transfer short exactly when fewer than the threshold have yet to sign, or nobody can. */
  lemma RepeatExhaustsIff(s: Bridge, id: TransferId, approved: bool)
    requires id.PublicId? && id in s.pending && Initiate(s, id, approved).1.Ok?
    ensures Exhausted(Initiate(s, id, approved).0, id) <==> Able(s) == {} || |Unsigned(s, id)| < s.threshold
  {
    hide Moved, Added;
    var s' := Initiate(s, id, approved).0;
    assert Able(s') == Able(s) && Unsigned(s', id) == Unsigned(s, id);
  }

  lemma RepeatPrivateExhaustsIff(s: Bridge, id: TransferId, proofOk: bool)
    requires id.PrivateId? && id in s.pending && id !in s.completed && InitiatePrivate(s, id, proofOk).1.Ok?
    ensures Exhausted(InitiatePrivate(s, id, proofOk).0, id) <==> Able(s) == {} || |Unsigned(s, id)| < s.threshold
  {
    hide Added;
    var s' := InitiatePrivate(s, id, proofOk).0;
    assert Able(s') == Able(s) && Unsigned(s', id) == Unsigned(s, id);
  }

  lemma SmallerSet(a: set<Address>, b: set<Address>)
    requires a <= b
    ensures |a| <= |b|
  {
    assert b == a + (b - a);
  }

  /** A call that adds no validator adds nobody who can sign. */
  lemma StepKeepsAble(s: Bridge, op: Op)
    requires !op.AddValidatorOp?
    ensures Able(Step(s, op).0) <= Able(s)
  {
    hide Moved, Opened, Signed, Added, BalanceOf, Execute;
    if op.ExecuteOp? { ExecuteWrites(s, op.id, op.mintOk); }
  }

  /** Accepted signatures come from those who can sign. */
  lemma SignerIsAble(s: Bridge, op: Op)
    requires op.SignOp? && Step(s, op).1.Ok?
    ensures op.caller in Able(s)
  {
  }

  lemma SignKeepsExhausted(s: Bridge, v: Address, id: TransferId, s': Bridge)
    requires Exhausted(s, id) && v in Able(s) && Able(s') <= Able(s) && s'.threshold == s.threshold
    requires s'.pending == s.pending[id := Signed(s.pending[id], v, s.threshold)] && s'.completed == s.completed
    ensures Exhausted(s', id)
  {
    hide Able;
    if v in Unsigned(s, id) {
      SmallerSet(Unsigned(s', id), Unsigned(s, id) - {v});
    } else {
      SmallerSet(Unsigned(s', id), Unsigned(s, id));
    }
  }

  /** Where the record is left alone, or opened again, the signatures stay and the count does not grow. */
  lemma OthersKeepExhausted(s: Bridge, id: TransferId, s': Bridge)
    requires Exhausted(s, id) && Able(s') <= Able(s) && s'.threshold == s.threshold && id !in s'.completed
    requires id in s'.pending && (s'.pending[id] == s.pending[id] || s'.pending[id] == Opened(s, id))
    ensures Exhausted(s', id)
  {
    hide Able;
    SmallerSet(Unsigned(s', id), Unsigned(s, id));
  }

  lemma StepKeepsExhausted(s: Bridge, op: Op, id: TransferId)
    requires Exhausted(s, id) && !op.AddValidatorOp? && !op.SetThresholdOp?
    ensures Exhausted(Step(s, op).0, id)
  {
    StepWrites(s, op);
    StepKeepsRoster(s, op);
    StepKeepsAble(s, op);
    if op.SignOp? && Step(s, op).1.Ok? { SignerIsAble(s, op); }
    hide Step, Able, Opened, Signed, Unsigned;
    if op.SignOp? && op.id == id && Step(s, op).1.Ok? {
      SignKeepsExhausted(s, op.caller, id, Step(s, op).0);
    } else {
      OthersKeepExhausted(s, id, Step(s, op).0);
    }
  }

  ghost predicate SameTerms(ops: seq<Op>) {
    forall i :: 0 <= i < |ops| ==> !ops[i].AddValidatorOp? && !ops[i].SetThresholdOp?
  }

  /** An exhausted transfer stays unexecutable until a validator joins or the threshold changes. */
  lemma {:induction false} ExhaustedStays(s: Bridge, ops: seq<Op>, id: TransferId)
    requires Exhausted(s, id) && SameTerms(ops)
    ensures Exhausted(Run(s, ops), id) && id !in Run(s, ops).completed
    decreases |ops|
  {
    hide Step;
    if ops != [] {
      ExhaustedStays(s, ops[..|ops| - 1], id);
      StepKeepsExhausted(Run(s, ops[..|ops| - 1]), ops[|ops| - 1], id);
    }
  }

  // ----- and otherwise it can be executed

  lemma {:induction false} RunFirst(s: Bridge, op: Op, ops: seq<Op>)
    ensures Run(s, [op] + ops) == Run(Step(s, op).0, ops)
    decreases |ops|
  {
    hide Step;
    if ops == [] {
      assert [op][..0] == [] && [op] + ops == [op];
    } else {
      var front, last := ops[..|ops| - 1], ops[|ops| - 1];
      assert [op] + ops == ([op] + front) + [last];
      RunFirst(s, op, front);
    }
  }

  lemma AbleSigns(s: Bridge, v: Address, id: TransferId)
    requires v in Able(s) && id in s.pending && !s.pending[id].status.Executed?
    ensures Step(s, SignOp(v, id, true, true)) ==
            (s.(pending := s.pending[id := Signed(s.pending[id], v, s.threshold)]), Ok)
  {
  }

  /** Every validator who can sign and has not signs in turn, until the threshold is met. */
  lemma {:induction false} SignUp(s: Bridge, id: TransferId) returns (ops: seq<Op>)
    requires id in s.pending && id !in s.completed && !Exhausted(s, id) && !s.pending[id].status.Executed?
    ensures SameTerms(ops)
    ensures var s' := Run(s, ops);
            id in s'.pending && s'.pending[id].status.SignaturesComplete? && s'.completed == s.completed
    decreases |Unsigned(s, id)|
  {
    hide Step;
    if s.pending[id].status.SignaturesComplete? {
      ops := [];
    } else {
      var t := s.pending[id];
      var v: Address :| v in Able(s) && (Unsigned(s, id) != {} ==> v in Unsigned(s, id));
      var op := SignOp(v, id, true, true);
      AbleSigns(s, v, id);
      var s1 := Step(s, op).0;
      assert Able(s1) == Able(s);
      assert Unsigned(s1, id) == Unsigned(s, id) - {v};
      if s1.pending[id].status.SignaturesComplete? {
        ops := [op];
        assert [op][..0] == [];
      } else {
        assert v in Unsigned(s, id);
        SmallerSet(Unsigned(s1, id), Unsigned(s, id) - {v});
        var rest := SignUp(s1, id);
        RunFirst(s, op, rest);
        ops := [op] + rest;
      }
    }
  }

  lemma ExecuteLast(s: Bridge, ops: seq<Op>, id: TransferId)
    ensures Run(s, ops + [ExecuteOp(id, true)]) == Execute(Run(s, ops), id, true).0
    ensures SameTerms(ops) ==> SameTerms(ops + [ExecuteOp(id, true)])
  {
    hide Execute;
    assert (ops + [ExecuteOp(id, true)])[..|ops|] == ops;
  }

  /** Sign up, then execute. */
  lemma Settle(s: Bridge, id: TransferId) returns (ops: seq<Op>)
    requires Inv(s) && id in s.pending && id !in s.completed && id.target == s.chainId && !Exhausted(s, id)
    ensures SameTerms(ops) && id in Run(s, ops).completed
  {
    assert Recorded(s, id);
    hide Inv, Exhausted, Recorded, Execute, Run, SameTerms;
    var signing := SignUp(s, id);
    RunKeepsInv(s, signing);
    ExecutesIff(Run(s, signing), id, true);
    ExecuteWrites(Run(s, signing), id, true);
    ExecuteLast(s, signing, id);
    ops := signing + [ExecuteOp(id, true)];
  }

  /** A public or private transfer addressed to this chain, not yet completed, can be executed without new validators or
      a new threshold exactly when it is not exhausted. */
  lemma SettlesIff(s: Bridge, id: TransferId)
    requires Inv(s) && id in s.pending && id !in s.completed && id.target == s.chainId
    ensures (exists ops :: SameTerms(ops) && id in Run(s, ops).completed) <==> !Exhausted(s, id)
  {
    hide Inv, Exhausted, Run, SameTerms;
    if Exhausted(s, id) {
      forall ops | SameTerms(ops) ensures id !in Run(s, ops).completed {
        ExhaustedStays(s, ops, id);
      }
    } else {
      var ops := Settle(s, id);
    }
  }
}
