/** Every cross-shard delivery is what its sender started: same transfer, same receiver, same amount. */
module CrossShardOrigins {
  import opened Sums
  import opened MachineInts
  import opened CrossShard

  /** Everything but the status. */
  predicate SameTransfer(tx: CrossTx, m: CrossTx) {
    && m.id == tx.id && m.source == tx.source && m.target == tx.target
    && m.sender == tx.sender && m.receiver == tx.receiver && m.amount == tx.amount
    && m.nonce == tx.nonce && m.timestamp == tx.timestamp
  }

  /** A start is accepted exactly where its source shard exists, its sender can pay and its id is not pending. */
  predicate Accepts(n: Net, tx: CrossTx) {
    tx.source in n.shards && tx.amount <= BalanceAt(n, tx.source, tx.sender) && tx.id !in n.router.pending
  }

  /** What a start does to the router: an accepted one holds the very transfer started, and sends it if the channel
      takes it; any other start leaves the router alone. */
  lemma StartEffect(n: Net, tx: CrossTx, room: bool, id: Hash, m: CrossTx)
    ensures var (n', r) := Process(n, tx, room);
            && (Accepts(n, tx) <==> tx.source in n.shards && r.Ok?)
            && (!Accepts(n, tx) ==> n'.router == n.router)
            && (Accepts(n, tx) ==>
                  && tx.id in n'.router.pending && SameTransfer(tx, n'.router.pending[tx.id])
                  && n'.router.pending[tx.id].status == SourceConfirmed
                  && (id != tx.id ==> (id in n'.router.pending <==> id in n.router.pending))
                  && (id != tx.id && id in n.router.pending ==> n'.router.pending[id] == n.router.pending[id])
                  && n'.router.inFlight[m] ==
                     n.router.inFlight[m]
                     + (if tx.target in n.router.registered && room && m == n'.router.pending[tx.id] then 1 else 0)
                  && n'.router.completed == n.router.completed && n'.router.registered == n.router.registered)
  {
    hide Write;
  }

  /** What a confirmation does: the id leaves the pending map and is filed under its timestamp. */
  lemma ConfirmEffect(r: Router, id: Hash, j: Hash, at: u64)
    ensures var (r', outcome) := Confirm(r, id);
            && (outcome.Ok? <==> id in r.pending)
            && (!outcome.Ok? ==> r' == r)
            && (outcome.Ok? ==>
                  && (j in r'.pending <==> j in r.pending && j != id)
                  && (j in r'.pending ==> r'.pending[j] == r.pending[j])
                  && (at in r'.completed <==> at in r.completed || at == r.pending[id].timestamp)
                  && (at in r'.completed ==>
                        r'.completed[at] == if at == r.pending[id].timestamp then id else r.completed[at])
                  && r'.inFlight == r.inFlight && r'.registered == r.registered)
  {
  }

  // ----- over a run

  ghost predicate StartedAt(t: Trace, events: seq<Event>, i: nat, m: CrossTx)
    requires i < |events|
  {
    events[i].Start? && SameTransfer(events[i].tx, m) && Accepts(Run(t, events[..i]).net, events[i].tx)
  }

  /** Event i is the last accepted start of the id of m, and m is what it started. */
  ghost predicate LastStart(t: Trace, events: seq<Event>, i: nat, m: CrossTx)
    requires i < |events|
  {
    && StartedAt(t, events, i, m)
    && forall j :: i < j < |events| && events[j].Start? && events[j].tx.id == m.id ==>
         !Accepts(Run(t, events[..j]).net, events[j].tx)
  }

  lemma StepPending(t: Trace, e: Event, id: Hash)
    requires id in Step(t, e).net.router.pending
    ensures var p := Step(t, e).net.router.pending[id];
            || (id in t.net.router.pending && p == t.net.router.pending[id])
            || (e.Start? && e.tx.id == id && Accepts(t.net, e.tx) && SameTransfer(e.tx, p))
    ensures e.Start? && e.tx.id == id && Accepts(t.net, e.tx) ==>
              SameTransfer(e.tx, Step(t, e).net.router.pending[id])
  {
    match e
    case Register(_) =>
    case Start(tx, room) =>
      StartEffect(t.net, tx, room, id, tx);
      hide Process;
    case Deliver(tx) =>
      ConfirmEffect(Taken(t.net, tx).router, tx.id, id, 0);
      DeliveryShape(t, tx);
      hide Receive, Confirm;
    case Lose(_) =>
  }

  lemma {:induction false} PendingNamesItself(t: Trace, events: seq<Event>, id: Hash)
    requires t.net.router.pending == map[] && id in Run(t, events).net.router.pending
    ensures Run(t, events).net.router.pending[id].id == id
    decreases |events|
  {
    hide Step;
    if events != [] {
      StepPending(Run(t, events[..|events| - 1]), events[|events| - 1], id);
      if id in Run(t, events[..|events| - 1]).net.router.pending {
        PendingNamesItself(t, events[..|events| - 1], id);
      }
    }
  }

  /** Every pending entry is what the last accepted start of its id asked for. */
  lemma {:induction false} PendingWasStarted(t: Trace, events: seq<Event>, id: Hash)
    requires t.net.router.pending == map[] && id in Run(t, events).net.router.pending
    ensures exists i :: 0 <= i < |events| && LastStart(t, events, i, Run(t, events).net.router.pending[id])
    decreases |events|
  {
    hide Step, SameTransfer, Accepts;
    if events != [] {
      var front, last := events[..|events| - 1], events[|events| - 1];
      var mid := Run(t, front);
      var p := Run(t, events).net.router.pending[id];
      StepPending(mid, last, id);
      if last.Start? && last.tx.id == id && Accepts(mid.net, last.tx) {
        PendingNamesItself(t, events, id);
        assert LastStart(t, events, |front|, p);
      } else {
        PendingWasStarted(t, front, id);
        PendingNamesItself(t, events, id);
        var i :| 0 <= i < |front| && LastStart(t, front, i, p);
        StillLast(t, events, i, p, id);
      }
    }
  }

  lemma StillLast(t: Trace, events: seq<Event>, i: nat, m: CrossTx, id: Hash)
    requires i < |events| - 1 && LastStart(t, events[..|events| - 1], i, m)
    requires var last := events[|events| - 1];
             !(last.Start? && last.tx.id == id && Accepts(Run(t, events[..|events| - 1]).net, last.tx))
    requires m.id == id
    ensures LastStart(t, events, i, m)
  {
    hide Accepts, Run, SameTransfer;
    var front := events[..|events| - 1];
    assert front[..i] == events[..i];
    forall j | i < j < |events| && events[j].Start? && events[j].tx.id == m.id
      ensures !Accepts(Run(t, events[..j]).net, events[j].tx)
    {
      if j < |front| { assert front[..j] == events[..j] && front[j] == events[j]; }
    }
  }

  /** Over every run from balances below 2^128: a delivery from a channel credits, on the target shard named at the last
      accepted start of its id, exactly the receiver and the amount named there, and changes no other balance. */
  lemma DeliveredAsStarted(shards: map<ShardId, Accounts>, events: seq<Event>, m: CrossTx, s: ShardId, a: Address)
    requires Sum(ShardTotals(shards)) < M128 && Disciplined(Initial(shards), events)
    requires m in Run(Initial(shards), events).net.router.inFlight
    ensures exists i :: 0 <= i < |events| && LastStart(Initial(shards), events, i, m)
    ensures forall i :: 0 <= i < |events| && LastStart(Initial(shards), events, i, m) ==>
              var tx, t := events[i].tx, Run(Initial(shards), events);
              BalanceAt(Step(t, Deliver(m)).net, s, a) ==
              BalanceAt(t.net, s, a) + if (s, a) == (tx.target, tx.receiver) && s in t.net.shards then tx.amount else 0
  {
    var t0, supply := Initial(shards), Sum(ShardTotals(shards));
    InitialInv(shards);
    RunKeepsInv(t0, events, supply);
    var t := Run(t0, events);
    PendingWasStarted(t0, events, m.id);
    DeliveryCredits(t, m, supply);
    DeliveryShape(t, m);
    hide Inv, Run, Step, Receive, Confirm, Accepts, Disciplined, Sum, ShardTotals;
    assert Step(t, Deliver(m)).net.shards ==
           if m.target in t.net.shards
           then t.net.shards[m.target := Write(t.net.shards[m.target], m.receiver,
                                               Get(t.net.shards[m.target], m.receiver) + m.amount)]
           else t.net.shards;
  }
}
