/** The cross-shard transfer protocol: debit at the source, hold as pending, credit at the target. */
module CrossShard {
  import opened Lists
  import opened Sums
  import opened MachineInts

  type ShardId = nat
  type Address = nat
  type Hash = nat
  type Accounts = map<Address, nat>

  datatype Status = Pending | SourceConfirmed | InTransit | TargetConfirmed | Failed

  datatype CrossTx = CrossTx(id: Hash, source: ShardId, target: ShardId, sender: Address, receiver: Address,
                             amount: u128, nonce: u64, status: Status, timestamp: u64)

  datatype Error = InsufficientBalance | AlreadyPending | NotFound

  datatype Outcome = Ok | Err(error: Error)

  /** What the router holds, and the messages its channels are carrying. */
  datatype Router = Router(
    pending: map<Hash, CrossTx>, completed: map<u64, Hash>, registered: set<ShardId>, inFlight: multiset<CrossTx>)

  datatype Net = Net(shards: map<ShardId, Accounts>, router: Router)

  // ----- the router

  /** Whether the channel has room is not the router's to know; a failed send is ignored. */
  function Submit(r: Router, tx: CrossTx, room: bool): (Router, Outcome) {
    if tx.id in r.pending then (r, Err(AlreadyPending))
    else
      (r.(pending := r.pending[tx.id := tx],
          inFlight := if tx.target in r.registered && room then r.inFlight + multiset{tx} else r.inFlight), Ok)
  }

  function Confirm(r: Router, id: Hash): (Router, Outcome) {
    if id in r.pending then
      (r.(completed := r.completed[r.pending[id].timestamp := id], pending := r.pending - {id}), Ok)
    else (r, Err(NotFound))
  }

  // ----- the shards

  function Write(accounts: Accounts, a: Address, balance: nat): Accounts {
    accounts[a := balance]
  }

  /** The debit comes before the router can object. */
  function Process(n: Net, tx: CrossTx, room: bool): (Net, Outcome) {
    if tx.source !in n.shards then (n, Ok)
    else
      var accounts := n.shards[tx.source];
      if Get(accounts, tx.sender) < tx.amount then (n, Err(InsufficientBalance))
      else
        var debited := Write(accounts, tx.sender, Get(accounts, tx.sender) - tx.amount);
        var (router, outcome) := Submit(n.router, tx.(status := SourceConfirmed), room);
        (Net(n.shards[tx.source := debited], router), outcome)
  }

  /** The credit, which wraps at 2^128, comes before the router can object. */
  function Receive(n: Net, tx: CrossTx): (Net, Outcome) {
    if tx.target !in n.shards then (n, Ok)
    else
      var accounts := n.shards[tx.target];
      var credited := Write(accounts, tx.receiver, (Get(accounts, tx.receiver) + tx.amount) % M128);
      var (router, outcome) := Confirm(n.router, tx.id);
      (Net(n.shards[tx.target := credited], router), outcome)
  }

  // ----- the money

  ghost function ShardTotals(shards: map<ShardId, Accounts>): map<ShardId, nat> {
    map s | s in shards :: Sum(shards[s])
  }

  ghost function Balances(n: Net): nat {
    Sum(ShardTotals(n.shards))
  }

  function Amounts(pending: map<Hash, CrossTx>): map<Hash, nat> {
    map id | id in pending :: pending[id].amount
  }

  ghost function Held(r: Router): nat {
    Sum(Amounts(r.pending))
  }

  ghost function Money(n: Net): nat {
    Balances(n) + Held(n.router)
  }

  lemma AccountWrite(shards: map<ShardId, Accounts>, s: ShardId, a: Address, v: nat)
    requires s in shards
    ensures Sum(ShardTotals(shards[s := Write(shards[s], a, v)])) == Sum(ShardTotals(shards)) - Get(shards[s], a) + v
    ensures Get(shards[s], a) <= Sum(ShardTotals(shards))
  {
    SumUpdate(shards[s], a, v);
    SumAtLeast(shards[s], a);
    SumAtLeast(ShardTotals(shards), s);
    SumUpdate(ShardTotals(shards), s, Sum(Write(shards[s], a, v)));
    assert ShardTotals(shards[s := Write(shards[s], a, v)]) == ShardTotals(shards)[s := Sum(Write(shards[s], a, v))];
  }

  lemma SubmitHolds(r: Router, tx: CrossTx, room: bool)
    ensures Held(Submit(r, tx, room).0) == Held(r) + if tx.id in r.pending then 0 else tx.amount
  {
    if tx.id !in r.pending {
      SumUpdate(Amounts(r.pending), tx.id, tx.amount);
      assert Amounts(r.pending[tx.id := tx]) == Amounts(r.pending)[tx.id := tx.amount];
    }
  }

  lemma ConfirmReleases(r: Router, id: Hash)
    ensures Held(Confirm(r, id).0) == Held(r) - Get(Amounts(r.pending), id)
    ensures Get(Amounts(r.pending), id) <= Held(r)
  {
    SumRemove(Amounts(r.pending), id);
    if id in r.pending {
      assert Amounts(r.pending - {id}) == Amounts(r.pending) - {id};
    }
  }

  /** A debit destroys money exactly when the id is already pending: the caller gets the error and loses the amount. */
  lemma ProcessConservesIff(n: Net, tx: CrossTx, room: bool)
    ensures Money(Process(n, tx, room).0) == Money(n) <==>
              !(Process(n, tx, room).1 == Err(AlreadyPending) && tx.amount > 0)
    ensures Process(n, tx, room).1 == Err(AlreadyPending) ==> Money(Process(n, tx, room).0) == Money(n) - tx.amount
    ensures Process(n, tx, room).1 == Err(AlreadyPending) <==>
              tx.source in n.shards && tx.amount <= Get(n.shards[tx.source], tx.sender) && tx.id in n.router.pending
  {
    hide Sum;
    if tx.source in n.shards && tx.amount <= Get(n.shards[tx.source], tx.sender) {
      AccountWrite(n.shards, tx.source, tx.sender, Get(n.shards[tx.source], tx.sender) - tx.amount);
      SubmitHolds(n.router, tx.(status := SourceConfirmed), room);
    }
  }

  /** What a credit loses by wrapping. */
  function Overflow(n: Net, tx: CrossTx): nat
    requires tx.target in n.shards
  {
    if Get(n.shards[tx.target], tx.receiver) + tx.amount < M128 then 0 else M128
  }

  lemma WrappedBalance(balance: nat, amount: u128)
    requires balance < M128
    ensures (balance + amount) % M128 == balance + amount - if balance + amount < M128 then 0 else M128
  {
  }

  /** What a delivery, wanted or not, does to the money: it conserves exactly when the amount that arrives, less 2^128
      where the balance wraps, is the amount held under that id, nothing being held under an unknown one. */
  lemma ReceiveConservesIff(n: Net, tx: CrossTx)
    requires tx.target in n.shards ==> Get(n.shards[tx.target], tx.receiver) < M128
    ensures Money(Receive(n, tx).0) == Money(n) <==>
              tx.target !in n.shards || tx.amount - Overflow(n, tx) == Get(Amounts(n.router.pending), tx.id)
    ensures tx.target in n.shards ==>
              Money(Receive(n, tx).0) ==
              Money(n) + tx.amount - Overflow(n, tx) - Get(Amounts(n.router.pending), tx.id)
  {
    hide Sum, Amounts;
    if tx.target in n.shards {
      var balance := Get(n.shards[tx.target], tx.receiver);
      WrappedBalance(balance, tx.amount);
      AccountWrite(n.shards, tx.target, tx.receiver, (balance + tx.amount) % M128);
      ConfirmReleases(n.router, tx.id);
    }
  }

  function BalanceAt(n: Net, s: ShardId, a: Address): nat {
    if s in n.shards then Get(n.shards[s], a) else 0
  }

  /** A call debits the sender on the source shard, in full, unless the sender cannot pay or the shard is unknown; no
      other balance moves. */
  lemma ProcessMovesOne(n: Net, tx: CrossTx, room: bool, s: ShardId, a: Address)
    ensures BalanceAt(Process(n, tx, room).0, s, a) ==
              BalanceAt(n, s, a)
              - if (s, a) == (tx.source, tx.sender) && s in n.shards && tx.amount <= BalanceAt(n, s, a)
                then tx.amount else 0
  {
    hide Submit;
  }

  /** A delivery credits the receiver on the target shard, modulo 2^128; no other balance moves. */
  lemma ReceiveMovesOne(n: Net, tx: CrossTx, s: ShardId, a: Address)
    ensures BalanceAt(Receive(n, tx).0, s, a) ==
              if (s, a) == (tx.target, tx.receiver) && s in n.shards then (BalanceAt(n, s, a) + tx.amount) % M128
              else BalanceAt(n, s, a)
  {
    hide Confirm;
  }

  // ----- runs

  /** The network, and as history which ids were accepted and credited, the timestamps of the confirmations, and the
      money debited under ids that were already pending. */
  datatype Trace = Trace(net: Net, accepted: multiset<Hash>, credited: multiset<Hash>, confirmedAt: seq<u64>, lost: nat)

  datatype Event =
    | Register(shard: ShardId)
    | Start(tx: CrossTx, room: bool)
    | Deliver(tx: CrossTx)
    | Lose(tx: CrossTx)

  ghost function Step(t: Trace, e: Event): Trace {
    match e
    case Register(shard) =>
      t.(net := t.net.(router := t.net.router.(registered := t.net.router.registered + {shard})))
    case Start(tx, room) =>
      var (net, outcome) := Process(t.net, tx, room);
      t.(net := net,
         accepted := if tx.source in t.net.shards && outcome.Ok? then t.accepted + multiset{tx.id} else t.accepted,
         lost := if outcome == Err(AlreadyPending) then t.lost + tx.amount else t.lost)
    case Deliver(tx) =>
      var taken := Taken(t.net, tx);
      var (net, outcome) := Receive(taken, tx);
      if tx.target in taken.shards && outcome.Ok? then
        t.(net := net, credited := t.credited + multiset{tx.id},
           confirmedAt := t.confirmedAt + [Timestamp(taken.router, tx.id)])
      else t.(net := net)
    case Lose(tx) => t.(net := Taken(t.net, tx))
  }

  function Taken(n: Net, tx: CrossTx): Net {
    n.(router := n.router.(inFlight := n.router.inFlight - multiset{tx}))
  }

  function Timestamp(r: Router, id: Hash): u64 {
    if id in r.pending then r.pending[id].timestamp else 0
  }

  /** Only what a channel carries is delivered or lost. Callers may start whatever they like. */
  ghost predicate Allowed(t: Trace, e: Event) {
    match e
    case Register(_) => true
    case Start(_, _) => true
    case Deliver(tx) => tx in t.net.router.inFlight
    case Lose(tx) => tx in t.net.router.inFlight
  }

  ghost function Run(t: Trace, events: seq<Event>): Trace
    decreases |events|
  {
    if events == [] then t else Step(Run(t, events[..|events| - 1]), events[|events| - 1])
  }

  ghost predicate Disciplined(t: Trace, events: seq<Event>)
    decreases |events|
  {
    events != [] ==>
      && Disciplined(t, events[..|events| - 1])
      && Allowed(Run(t, events[..|events| - 1]), events[|events| - 1])
  }

  function Initial(shards: map<ShardId, Accounts>): Trace {
    Trace(Net(shards, Router(map[], map[], {}, multiset{})), multiset{}, multiset{}, [], 0)
  }

  ghost predicate Matched(r: Router) {
    forall m :: m in r.inFlight ==> r.inFlight[m] == 1 && m.id in r.pending && r.pending[m.id] == m
  }

  ghost predicate Counted(r: Router, accepted: multiset<Hash>, credited: multiset<Hash>, confirmedAt: seq<u64>) {
    && (forall id :: accepted[id] == credited[id] + if id in r.pending then 1 else 0)
    && |accepted| == |confirmedAt| + |r.pending|
    && r.completed.Keys == Members(confirmedAt)
  }

  ghost predicate Inv(t: Trace, supply: nat) {
    && Money(t.net) + t.lost == supply
    && Matched(t.net.router)
    && Counted(t.net.router, t.accepted, t.credited, t.confirmedAt)
  }

  lemma InitialInv(shards: map<ShardId, Accounts>)
    ensures Inv(Initial(shards), Sum(ShardTotals(shards)))
  {
    assert Amounts(Initial(shards).net.router.pending) == map[];
  }

  lemma SubmitMatches(r: Router, tx: CrossTx, room: bool)
    requires Matched(r) && tx.id !in r.pending
    ensures Submit(r, tx, room).1.Ok? && Matched(Submit(r, tx, room).0)
  {
    assert tx !in r.inFlight;
  }

  lemma SubmitCounts(r: Router, tx: CrossTx, room: bool, accepted: multiset<Hash>, credited: multiset<Hash>,
                     at: seq<u64>)
    requires Counted(r, accepted, credited, at) && tx.id !in r.pending
    ensures Counted(Submit(r, tx, room).0, accepted + multiset{tx.id}, credited, at)
  {
  }

  lemma StartKeepsInv(t: Trace, tx: CrossTx, room: bool, supply: nat)
    requires Inv(t, supply)
    ensures Inv(Step(t, Start(tx, room)), supply)
  {
    hide Money, Members, Matched, Counted, Get, Write;
    var m := tx.(status := SourceConfirmed);
    ProcessConservesIff(t.net, tx, room);
    if tx.id !in t.net.router.pending {
      SubmitMatches(t.net.router, m, room);
      SubmitCounts(t.net.router, m, room, t.accepted, t.credited, t.confirmedAt);
      hide Submit;
    }
  }

  lemma ConfirmMatches(r: Router, tx: CrossTx)
    requires Matched(r) && tx in r.inFlight
    ensures var (r', outcome) := Confirm(r.(inFlight := r.inFlight - multiset{tx}), tx.id); outcome.Ok? && Matched(r')
  {
  }

  lemma OneFewer(pending: map<Hash, CrossTx>, id: Hash)
    requires id in pending
    ensures |pending - {id}| == |pending| - 1
  {
    assert pending == (pending - {id})[id := pending[id]];
  }

  lemma OneMoreMember(at: seq<u64>, t: u64)
    ensures Members(at + [t]) == Members(at) + {t}
  {
  }

  lemma ConfirmCounts(r: Router, id: Hash, accepted: multiset<Hash>, credited: multiset<Hash>, at: seq<u64>)
    requires Counted(r, accepted, credited, at) && id in r.pending
    ensures Counted(Confirm(r, id).0, accepted, credited + multiset{id}, at + [Timestamp(r, id)])
  {
    OneFewer(r.pending, id);
    OneMoreMember(at, Timestamp(r, id));
    hide Members;
  }

  /** A delivery taken from a channel is always credited in full and confirmed, unless its target does not exist. */
  lemma DeliveryCredits(t: Trace, tx: CrossTx, supply: nat)
    requires Inv(t, supply) && supply < M128 && tx in t.net.router.inFlight
    ensures Receive(Taken(t.net, tx), tx).1.Ok?
    ensures tx.target in t.net.shards ==>
              && Step(t, Deliver(tx)).credited == t.credited + multiset{tx.id}
              && Step(t, Deliver(tx)).net.shards == t.net.shards[tx.target :=
                   Write(t.net.shards[tx.target], tx.receiver, Get(t.net.shards[tx.target], tx.receiver) + tx.amount)]
  {
    PendingHolds(t.net.router, tx);
    hide Sum, Matched, Counted, Amounts, Members, Write;
    if tx.target in t.net.shards {
      AccountWrite(t.net.shards, tx.target, tx.receiver, 0);
      SmallResidue(Get(t.net.shards[tx.target], tx.receiver) + tx.amount);
    }
  }

  lemma DeliveryShape(t: Trace, tx: CrossTx)
    ensures var taken := Taken(t.net, tx);
            Step(t, Deliver(tx)) ==
            if tx.target in t.net.shards && tx.id in t.net.router.pending then
              t.(net := Receive(taken, tx).0, credited := t.credited + multiset{tx.id},
                 confirmedAt := t.confirmedAt + [Timestamp(taken.router, tx.id)])
            else t.(net := Receive(taken, tx).0)
    ensures Receive(Taken(t.net, tx), tx).0.router ==
            if tx.target in t.net.shards then Confirm(Taken(t.net, tx).router, tx.id).0 else Taken(t.net, tx).router
    ensures tx.target !in t.net.shards ==> Receive(Taken(t.net, tx), tx).0 == Taken(t.net, tx)
  {
    hide Get, Write;
  }

  lemma DeliverKeepsInv(t: Trace, tx: CrossTx, supply: nat)
    requires Inv(t, supply) && supply < M128 && tx in t.net.router.inFlight
    ensures Inv(Step(t, Deliver(tx)), supply)
  {
    PendingHolds(t.net.router, tx);
    TakenKeeps(t, tx, supply);
    ConfirmMatches(t.net.router, tx);
    var taken := Taken(t.net, tx);
    DeliveryShape(t, tx);
    hide Sum, Matched, Counted, Amounts, Members, Write, Confirm, Step, Receive, Balances, Held;
    ConfirmCounts(taken.router, tx.id, t.accepted, t.credited, t.confirmedAt);
    if tx.target in t.net.shards {
      DeliveredInFull(t, tx, supply);
      ReceiveConservesIff(taken, tx);
    }
  }

  lemma DeliveredInFull(t: Trace, tx: CrossTx, supply: nat)
    requires Inv(t, supply) && supply < M128 && tx in t.net.router.inFlight && tx.target in t.net.shards
    ensures Get(t.net.shards[tx.target], tx.receiver) + tx.amount < M128
  {
    PendingHolds(t.net.router, tx);
    AccountWrite(t.net.shards, tx.target, tx.receiver, 0);
    hide Sum, Matched, Counted, Amounts;
  }

  lemma PendingHolds(r: Router, tx: CrossTx)
    requires Matched(r) && tx in r.inFlight
    ensures tx.id in r.pending && Get(Amounts(r.pending), tx.id) == tx.amount <= Held(r)
  {
    ConfirmReleases(r, tx.id);
  }

  lemma TakenKeeps(t: Trace, tx: CrossTx, supply: nat)
    requires Inv(t, supply) && tx in t.net.router.inFlight
    ensures Inv(t.(net := Taken(t.net, tx)), supply)
  {
  }

  lemma SameMoney(n: Net, n': Net)
    requires n.shards == n'.shards && n.router.pending == n'.router.pending
    ensures Money(n) == Money(n')
  {
  }

  lemma StepKeepsInv(t: Trace, e: Event, supply: nat)
    requires Inv(t, supply) && supply < M128 && Allowed(t, e)
    ensures Inv(Step(t, e), supply)
  {
    match e
    case Register(_) =>
      hide Money, Members;
      assert Money(Step(t, e).net) == Money(t.net) by { SameMoney(t.net, Step(t, e).net); }
    case Start(tx, room) =>
      hide Inv;
      StartKeepsInv(t, tx, room, supply);
    case Deliver(tx) =>
      hide Inv;
      DeliverKeepsInv(t, tx, supply);
    case Lose(tx) => TakenKeeps(t, tx, supply);
  }

  lemma {:induction false} RunKeepsInv(t: Trace, events: seq<Event>, supply: nat)
    requires Inv(t, supply) && supply < M128 && Disciplined(t, events)
    ensures Inv(Run(t, events), supply)
    decreases |events|
  {
    hide Inv, Allowed, Step;
    if events != [] {
      RunKeepsInv(t, events[..|events| - 1], supply);
      StepKeepsInv(Run(t, events[..|events| - 1]), events[|events| - 1], supply);
    }
  }

  /** Over every run from any opening balances below 2^128 in total, ids reused or not: balances, pending amounts and
      what reuse lost make up the opening supply, every message in flight is the pending entry of its id and the only
      one, each id is credited
      at most as often as accepted, and nothing is credited beyond what was debited. */
  lemma Reachable(shards: map<ShardId, Accounts>, events: seq<Event>, m: CrossTx, id: Hash)
    requires Sum(ShardTotals(shards)) < M128 && Disciplined(Initial(shards), events)
    ensures var t := Run(Initial(shards), events);
            && Balances(t.net) + Held(t.net.router) + t.lost == Sum(ShardTotals(shards))
            && (m in t.net.router.inFlight ==> m.id in t.net.router.pending && t.net.router.pending[m.id] == m)
            && t.net.router.inFlight[m] <= 1
            && t.credited[id] <= t.accepted[id] <= t.credited[id] + 1
            && (t.accepted[id] == t.credited[id] + 1 <==> id in t.net.router.pending)
  {
    InitialInv(shards);
    RunKeepsInv(Initial(shards), events, Sum(ShardTotals(shards)));
  }

  /** A start that loses its amount: the sender can pay, but the id is already pending. */
  predicate Loses(n: Net, e: Event) {
    && e.Start? && e.tx.source in n.shards && e.tx.id in n.router.pending
    && 0 < e.tx.amount <= Get(n.shards[e.tx.source], e.tx.sender)
  }

  lemma StepLosesIff(t: Trace, e: Event)
    ensures Step(t, e).lost >= t.lost
    ensures Step(t, e).lost == t.lost <==> !Loses(t.net, e)
  {
    if e.Start? { ProcessConservesIff(t.net, e.tx, e.room); }
    hide Money, Process, Receive;
  }

  ghost predicate LosesNothing(t: Trace, events: seq<Event>)
    decreases |events|
  {
    events != [] ==>
      && LosesNothing(t, events[..|events| - 1])
      && !Loses(Run(t, events[..|events| - 1]).net, events[|events| - 1])
  }

  /** A run loses money exactly when some payable start of a positive amount reuses an id that is still pending. */
  lemma {:induction false} RunLosesIff(t: Trace, events: seq<Event>)
    ensures Run(t, events).lost >= t.lost
    ensures Run(t, events).lost == t.lost <==> LosesNothing(t, events)
    decreases |events|
  {
    hide Step, Loses;
    if events != [] {
      RunLosesIff(t, events[..|events| - 1]);
      StepLosesIff(Run(t, events[..|events| - 1]), events[|events| - 1]);
    }
  }

  /** So balances plus pending amounts stay the opening supply exactly in the runs without such a reuse. */
  lemma ConservesIff(shards: map<ShardId, Accounts>, events: seq<Event>)
    requires Sum(ShardTotals(shards)) < M128 && Disciplined(Initial(shards), events)
    ensures Money(Run(Initial(shards), events).net) == Sum(ShardTotals(shards)) <==>
            LosesNothing(Initial(shards), events)
  {
    InitialInv(shards);
    RunKeepsInv(Initial(shards), events, Sum(ShardTotals(shards)));
    RunLosesIff(Initial(shards), events);
  }

  // ----- what a lost message leaves behind

  ghost predicate Stranded(t: Trace, id: Hash) {
    Waits(t.net.router, id)
  }

  ghost predicate Waits(r: Router, id: Hash) {
    id in r.pending && forall m :: m in r.inFlight ==> m.id != id
  }

  lemma SubmitKeepsStranded(r: Router, tx: CrossTx, room: bool, id: Hash, r': Router)
    requires Waits(r, id) && tx.id !in r.pending && r' == Submit(r, tx, room).0
    ensures Waits(r', id) && r'.pending[id] == r.pending[id]
  {
  }

  lemma ConfirmKeepsStranded(r: Router, tx: CrossTx, id: Hash, r': Router)
    requires Waits(r, id) && tx.id != id && r' == Confirm(r, tx.id).0
    ensures Waits(r', id) && r'.pending[id] == r.pending[id]
  {
  }

  lemma StartKeepsStranded(t: Trace, tx: CrossTx, room: bool, id: Hash)
    requires Stranded(t, id)
    ensures Stranded(Step(t, Start(tx, room)), id)
    ensures Step(t, Start(tx, room)).net.router.pending[id] == t.net.router.pending[id]
  {
    var r, m := t.net.router, tx.(status := SourceConfirmed);
    if tx.id !in r.pending {
      SubmitKeepsStranded(r, m, room, id, Submit(r, m, room).0);
      hide Submit;
    }
    hide Waits, Get, Write;
  }

  lemma DeliverKeepsStranded(t: Trace, tx: CrossTx, id: Hash)
    requires Stranded(t, id) && tx in t.net.router.inFlight
    ensures Stranded(Step(t, Deliver(tx)), id)
    ensures Step(t, Deliver(tx)).net.router.pending[id] == t.net.router.pending[id]
    ensures Step(t, Deliver(tx)).credited[id] == t.credited[id]
  {
    var r' := Taken(t.net, tx).router;
    assert tx.id != id && Waits(r', id);
    ConfirmKeepsStranded(r', tx, id, Confirm(r', tx.id).0);
    hide Waits, Confirm, Get, Write;
  }

  lemma StepKeepsStranded(t: Trace, e: Event, id: Hash)
    requires Stranded(t, id) && Allowed(t, e)
    ensures Stranded(Step(t, e), id)
    ensures Step(t, e).net.router.pending[id] == t.net.router.pending[id]
    ensures Step(t, e).credited[id] == t.credited[id]
  {
    match e
    case Register(_) =>
    case Start(tx, room) =>
      StartKeepsStranded(t, tx, room, id);
      hide Stranded, Process;
    case Deliver(tx) =>
      DeliverKeepsStranded(t, tx, id);
      hide Stranded, Step;
    case Lose(_) =>
  }

  /** Nothing sends a dropped message again: its entry and its amount stay pending for ever, never credited. */
  lemma {:induction false} LostStaysPending(t: Trace, events: seq<Event>, id: Hash)
    requires Stranded(t, id) && Disciplined(t, events)
    ensures Stranded(Run(t, events), id)
    ensures Run(t, events).net.router.pending[id] == t.net.router.pending[id]
    ensures Run(t, events).credited[id] == t.credited[id]
    decreases |events|
  {
    hide Stranded, Allowed, Step;
    if events != [] {
      LostStaysPending(t, events[..|events| - 1], id);
      StepKeepsStranded(Run(t, events[..|events| - 1]), events[|events| - 1], id);
    }
  }

  /** An accepted transfer is stranded at once exactly when the channel is missing or full, since a failed send is
      ignored. */
  lemma StartStrandsIff(t: Trace, tx: CrossTx, room: bool)
    requires Matched(t.net.router) && tx.id !in t.net.router.pending
    requires tx.source in t.net.shards && tx.amount <= Get(t.net.shards[tx.source], tx.sender)
    ensures Stranded(Step(t, Start(tx, room)), tx.id) <==> !(tx.target in t.net.router.registered && room)
  {
    hide Get, Write;
    var m := tx.(status := SourceConfirmed);
    var r' := Step(t, Start(tx, room)).net.router;
    assert r' == Submit(t.net.router, m, room).0;
    if tx.target in t.net.router.registered && room { assert m in r'.inFlight; }
  }

  /** Losing a message in flight strands its transfer. */
  lemma LosingStrands(t: Trace, m: CrossTx)
    requires Matched(t.net.router) && m in t.net.router.inFlight
    ensures Stranded(Step(t, Lose(m)), m.id)
  {
  }

  // ----- the statistics

  /** The completed count misses confirmations exactly when two shared a timestamp. */
  lemma StatsCountConfirmations(t: Trace, supply: nat)
    requires Inv(t, supply)
    ensures |t.net.router.completed| <= |t.confirmedAt|
    ensures |t.net.router.completed| == |t.confirmedAt| <==> NoRepeats(t.confirmedAt)
    ensures |t.net.router.completed| + |t.net.router.pending| == |t.accepted| <==> NoRepeats(t.confirmedAt)
  {
    var completed := t.net.router.completed;
    assert |completed| == |completed.Keys|;
    MembersSize(t.confirmedAt);
  }
}
