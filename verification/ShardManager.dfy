/** The router and the shard manager, updated in place, against the protocol's step functions. */
module ShardManager {
  import opened Lists
  import opened Sums
  import opened MachineInts
  import opened CrossShard

  class CrossChainRouter {
    var pendingTxs: map<Hash, CrossTx>
    var completedTxs: map<u64, Hash>
    var shardChannels: set<ShardId>
    /** What the channels carry, seen from outside. */
    ghost var inFlight: multiset<CrossTx>

    ghost function State(): Router
      reads this
    {
      Router(pendingTxs, completedTxs, shardChannels, inFlight)
    }

    constructor ()
      ensures State() == Initial(map[]).net.router
    {
      pendingTxs, completedTxs, shardChannels, inFlight := map[], map[], {}, multiset{};
    }

    method RegisterShard(shard: ShardId)
      modifies this
      ensures State() == old(State()).(registered := old(State()).registered + {shard})
    {
      shardChannels := shardChannels + {shard};
    }

    method SubmitCrossTx(tx: CrossTx, room: bool) returns (r: Outcome)
      modifies this
      ensures (State(), r) == Submit(old(State()), tx, room)
      ensures Held(State()) == Held(old(State())) + if r.Ok? then tx.amount else 0
      ensures Matched(old(State())) ==> Matched(State())
    {
      SubmitHolds(State(), tx, room);
      if Matched(State()) && tx.id !in pendingTxs { SubmitMatches(State(), tx, room); }
      hide Held, Matched;
      if tx.id in pendingTxs { return Err(AlreadyPending); }
      pendingTxs := pendingTxs[tx.id := tx];
      if tx.target in shardChannels && room {
        inFlight := inFlight + multiset{tx};
      }
      return Ok;
    }

    method ConfirmTx(id: Hash) returns (r: Outcome)
      modifies this
      ensures (State(), r) == Confirm(old(State()), id)
      ensures Held(State()) == Held(old(State())) - Get(Amounts(old(State()).pending), id)
    {
      ConfirmReleases(State(), id);
      hide Held;
      if id in pendingTxs {
        var tx := pendingTxs[id];
        pendingTxs := pendingTxs[id := tx.(status := TargetConfirmed)];
        completedTxs := completedTxs[tx.timestamp := id];
        pendingTxs := pendingTxs - {id};
        assert pendingTxs == old(pendingTxs) - {id};
        return Ok;
      }
      return Err(NotFound);
    }

    /** Both counts, and when they add up to everything ever accepted. */
    method GetStats(ghost t: Trace, ghost supply: nat) returns (pendingCount: nat, completedCount: nat)
      requires t.net.router == State() && Inv(t, supply)
      ensures pendingCount + completedCount <= |t.accepted|
      ensures pendingCount + completedCount == |t.accepted| <==> NoRepeats(t.confirmedAt)
      ensures pendingCount == 0 ==> forall id :: t.accepted[id] == t.credited[id]
    {
      StatsCountConfirmations(t, supply);
      pendingCount, completedCount := |pendingTxs|, |completedTxs|;
    }
  }

  class ShardManager {
    var shards: map<ShardId, Accounts>
    const router: CrossChainRouter

    ghost function State(): Net
      reads this, router
    {
      Net(shards, router.State())
    }

    constructor (shards: map<ShardId, Accounts>, router: CrossChainRouter)
      ensures this.router == router && this.shards == shards
    {
      this.shards := shards;
      this.router := router;
    }

    method ProcessCrossChainTx(tx: CrossTx, room: bool) returns (r: Outcome)
      modifies this, router
      ensures (State(), r) == Process(old(State()), tx, room)
      ensures Money(State()) == Money(old(State())) <==> !(r == Err(AlreadyPending) && tx.amount > 0)
      ensures Matched(old(State()).router) ==> Matched(State().router)
    {
      hide Money, Matched;
      ProcessConservesIff(State(), tx, room);
      if tx.source in shards {
        var accounts := shards[tx.source];
        var balance := Get(accounts, tx.sender);
        if balance < tx.amount { return Err(InsufficientBalance); }
        shards := shards[tx.source := Write(accounts, tx.sender, balance - tx.amount)];
        r := router.SubmitCrossTx(tx.(status := SourceConfirmed), room);
        return r;
      }
      return Ok;
    }

    method ReceiveCrossChainTx(tx: CrossTx) returns (r: Outcome)
      modifies this, router
      ensures (State(), r) == Receive(old(State()), tx)
      ensures forall t, supply: nat :: WasTaken(old(State()), t, tx, supply) ==>
                r.Ok? && Step(t, Deliver(tx)).net == State() && Inv(Step(t, Deliver(tx)), supply)
    {
      forall t, supply: nat | WasTaken(State(), t, tx, supply)
        ensures Receive(State(), tx).1.Ok? && Step(t, Deliver(tx)).net == Receive(State(), tx).0
        ensures Inv(Step(t, Deliver(tx)), supply)
      {
        TakenDelivery(State(), t, tx, supply);
      }
      hide WasTaken, Inv;
      if tx.target in shards {
        var accounts := shards[tx.target];
        var balance := (Get(accounts, tx.receiver) + tx.amount) % M128;
        shards := shards[tx.target := Write(accounts, tx.receiver, balance)];
        r := router.ConfirmTx(tx.id);
        return r;
      }
      return Ok;
    }
  }

  /** The network just after the message left its channel, in a sound trace. */
  ghost predicate WasTaken(n: Net, t: Trace, tx: CrossTx, supply: nat) {
    Inv(t, supply) && supply < M128 && tx in t.net.router.inFlight && n == Taken(t.net, tx)
  }

  lemma TakenDelivery(n: Net, t: Trace, tx: CrossTx, supply: nat)
    requires WasTaken(n, t, tx, supply)
    ensures Receive(n, tx).1.Ok? && Step(t, Deliver(tx)).net == Receive(n, tx).0
    ensures Inv(Step(t, Deliver(tx)), supply)
  {
    DeliverKeepsInv(t, tx, supply);
    DeliveryCredits(t, tx, supply);
    hide Inv, Receive;
  }
}
