/** The consensus engine's block loop: propose the best transactions of the pool, validate, finalize and remove. */
module BlockProduction {
  import opened PriceTime
  import opened Mempool
  import Merkle = MerkleTree
  import opened LeaderRotation
  import opened Quorum
  import opened PoolDraining

  /** Proposals carry no signature bytes; anything else is a signature to be checked. */
  datatype Signature = Empty | Bytes(sig: Sig)

  datatype Header = Header(height: nat, prevHash: nat, merkleRoot: Merkle.Hash, validator: Address,
                           signature: Signature, txCount: nat)

  datatype Block = Block(header: Header, transactions: seq<Tx>)

  datatype Option<T> = None | Some(value: T)

  /** Does this signature of this header verify under this key? */
  type HeaderCheck = (Key, Header, Sig) -> bool

  const U32: nat := 0x1_0000_0000

  function Leaves(txs: seq<Tx>): seq<Merkle.Hash> {
    seq(|txs|, i requires 0 <= i < |txs| => Merkle.Leaf(Digest(txs[i])))
  }

  class HotStuffConsensus {
    const mempool: Mempool
    const validatorSet: ValidatorSet
    const minGasPrice: nat
    const myAddress: Address
    var currentHeight: nat
    var blocks: map<nat, Block>
    var blocksFinalized: nat

    constructor (minGasPrice: nat, validatorSet: ValidatorSet, myAddress: Address)
      ensures fresh(mempool) && mempool.Valid() && mempool.arrivals == [] && mempool.maxSize == 100000
      ensures Chain() == NewChain()
      ensures this.minGasPrice == minGasPrice && this.validatorSet == validatorSet && this.myAddress == myAddress
    {
      this.minGasPrice, this.validatorSet, this.myAddress := minGasPrice, validatorSet, myAddress;
      mempool := new Mempool(100000);
      currentHeight, blocks, blocksFinalized := 0, map[], 0;
    }

    ghost function Chain(): ChainState
      reads this
    {
      ChainState(currentHeight, blocks, blocksFinalized)
    }

    /** The block names the height after the current one and carries the first 1000 ranked transactions. */
    method ProposeBlock(prevHash: nat) returns (block: Option<Block>)
      requires mempool.Valid()
      ensures block == Proposal(Chain(), mempool.arrivals, minGasPrice, myAddress, prevHash)
    {
      var txs := mempool.GetTransactions(BLOCK_LIMIT, minGasPrice);
      if txs == [] {
        return None;
      }
      var root := Merkle.Root(Leaves(txs));
      return Some(Block(Header(currentHeight + 1, prevHash, root, myAddress, Empty, |txs| % U32), txs));
    }

    /** Stores the block under its own height and removes its transactions; the current height stays as it is. */
    method FinalizeBlock(block: Block)
      requires mempool.Valid()
      modifies this`blocks, this`blocksFinalized, mempool
      ensures mempool.Valid()
      ensures mempool.arrivals == Without(old(mempool.arrivals), Elems(block.transactions))
      ensures Chain() == Finalized(old(Chain()), block)
    {
      blocks := blocks[block.header.height := block];
      var hashes := Digests(block.transactions);
      PreimagesOfDigests(block.transactions);
      mempool.RemoveTransactions(hashes);
      blocksFinalized := blocksFinalized + 1;
    }

    /** Parent stored, root of the transactions, leader of the height, and the leader's signature. */
    method ValidateBlock(block: Block, check: HeaderCheck) returns (valid: bool)
      ensures valid == Validates(Chain(), validatorSet.validators, check, block)
    {
      if block.header.height > 0 && block.header.height - 1 !in blocks {
        return false;
      }
      var root := Merkle.Root(Leaves(block.transactions));
      if root != block.header.merkleRoot {
        return false;
      }
      var leader := validatorSet.GetLeader(block.header.height);
      if leader.Chosen? {
        SameRank(validatorSet.validators.Keys, leader.address, block.header.validator);
        if leader.address != block.header.validator {
          return false;
        }
      }
      if block.header.validator in validatorSet.validators {
        valid := VerifySignature(validatorSet.validators[block.header.validator].publicKey, block.header, check);
        return valid;
      }
      return true;
    }

    /** Empty bytes do not parse as a signature. */
    method VerifySignature(key: Key, header: Header, check: HeaderCheck) returns (ok: bool)
      ensures ok == SignedUnder(key, header, check)
    {
      if header.signature == Empty {
        return false;
      }
      return check(key, header, header.signature.sig);
    }
  }

  lemma SameRank(s: set<Address>, a: Address, b: Address)
    requires a in s
    ensures a == b <==> b in s && Rank(s, b) == Rank(s, a)
  {
    if b in s {
      RankOrders(s, a, b);
      RankOrders(s, b, a);
    }
  }

  lemma PreimagesOfDigests(s: seq<Tx>)
    ensures Preimages(Digests(s)) == Elems(s)
  {
    forall t | t in s ensures t in Preimages(Digests(s)) {
      var i :| 0 <= i < |s| && s[i] == t;
      assert Digests(s)[i] in Digests(s);
    }
  }

  // ----- the chain state over runs

  datatype ChainState = ChainState(height: nat, blocks: map<nat, Block>, finalized: nat)

  ghost function NewChain(): ChainState {
    ChainState(0, map[], 0)
  }

  ghost function Proposal(c: ChainState, arrivals: seq<Tx>, minPrice: nat, me: Address, prevHash: nat): Option<Block> {
    var txs := First(Ranked(arrivals, minPrice), BLOCK_LIMIT);
    if txs == [] then None
    else Some(Block(Header(c.height + 1, prevHash, Merkle.RootOf(Leaves(txs)), me, Empty, |txs| % U32), txs))
  }

  ghost function Finalized(c: ChainState, block: Block): ChainState {
    c.(blocks := c.blocks[block.header.height := block], finalized := c.finalized + 1)
  }

  predicate SignedUnder(key: Key, header: Header, check: HeaderCheck) {
    header.signature.Bytes? && check(key, header, header.signature.sig)
  }

  ghost predicate LeadsAt(vs: Validators, a: Address, round: nat) {
    vs != map[] ==> a in vs && Rank(vs.Keys, a) == round % |vs|
  }

  ghost predicate Validates(c: ChainState, vs: Validators, check: HeaderCheck, block: Block) {
    && (block.header.height > 0 ==> block.header.height - 1 in c.blocks)
    && block.header.merkleRoot == Merkle.RootOf(Leaves(block.transactions))
    && LeadsAt(vs, block.header.validator, block.header.height)
    && (block.header.validator in vs ==> SignedUnder(vs[block.header.validator].publicKey, block.header, check))
  }

  /** A signature covers the header, and the header only the root: under a valid block's header exactly those
      transaction lists validate that are as empty as the block's, or have equally many Merkle levels and fill them
      alike. */
  lemma SameHeaderIff(c: ChainState, vs: Validators, check: HeaderCheck, block: Block, txs: seq<Tx>)
    requires Validates(c, vs, check, block)
    ensures var a, b := Leaves(block.transactions), Leaves(txs);
            && (a != [] ==> |a| <= Merkle.Pow2(Merkle.Depth(|a|)))
            && (b != [] ==> |b| <= Merkle.Pow2(Merkle.Depth(|b|)))
            && (Validates(c, vs, check, Block(block.header, txs)) <==>
                if a == [] || b == [] then a == b
                else Merkle.Depth(|a|) == Merkle.Depth(|b|)
                     && Merkle.SameFilling(Merkle.Depth(|a|), a, 0, |a|, b, 0, |b|))
  {
    Merkle.TransactionRootsIff(Leaves(block.transactions), Leaves(txs));
  }

  /** So a valid block with an odd number of transactions from three on still validates with its last one repeated; the
      header's transaction count is not checked. */
  lemma LastMayRepeat(c: ChainState, vs: Validators, check: HeaderCheck, block: Block)
    requires Validates(c, vs, check, block) && |block.transactions| >= 3 && |block.transactions| % 2 == 1
    ensures var txs := block.transactions;
            Validates(c, vs, check, Block(block.header, txs + [txs[|txs| - 1]]))
  {
    var txs := block.transactions;
    Merkle.OddListRepeatsLast(Leaves(txs));
    assert Leaves(txs + [txs[|txs| - 1]]) == Leaves(txs) + [Leaves(txs)[|txs| - 1]];
  }

  /** Arrivals, own proposals finalized at once, and blocks finalized from anywhere. */
  datatype Event = Arrive(tx: Tx) | Produce(prevHash: nat) | Finalize(block: Block)

  ghost function Advance(c: ChainState, arrivals: seq<Tx>, minPrice: nat, me: Address, e: Event)
    : (ChainState, seq<Tx>)
  {
    match e
    case Arrive(tx) => (c, arrivals + [tx])
    case Produce(prevHash) =>
      var p := Proposal(c, arrivals, minPrice, me, prevHash);
      if p.None? then (c, arrivals) else (Finalized(c, p.value), Without(arrivals, Elems(p.value.transactions)))
    case Finalize(block) => (Finalized(c, block), Without(arrivals, Elems(block.transactions)))
  }

  ghost function AdvanceAll(c: ChainState, arrivals: seq<Tx>, minPrice: nat, me: Address, es: seq<Event>)
    : (ChainState, seq<Tx>)
    decreases |es|
  {
    if es == [] then (c, arrivals)
    else
      var (c1, a1) := AdvanceAll(c, arrivals, minPrice, me, es[..|es| - 1]);
      Advance(c1, a1, minPrice, me, es[|es| - 1])
  }

  /** A proposal validates exactly when its predecessor height is stored and there are no validators at all: its root is
      right, but with validators only the leader's blocks pass, and the leader's signature is missing. */
  lemma ProposalValidatesIff(c: ChainState, arrivals: seq<Tx>, minPrice: nat, me: Address, prevHash: nat,
                             vs: Validators, check: HeaderCheck)
    requires Proposal(c, arrivals, minPrice, me, prevHash).Some?
    ensures Validates(c, vs, check, Proposal(c, arrivals, minPrice, me, prevHash).value) <==>
              c.height in c.blocks && vs == map[]
  {
    hide Ranked;
  }

  // ----- what a run stores

  /** The block that one event finalizes, if any: its own argument, or the engine's next proposal. */
  ghost function FinalizedIn(c: ChainState, arrivals: seq<Tx>, minPrice: nat, me: Address, e: Event): Option<Block> {
    match e
    case Arrive(_) => None
    case Produce(prevHash) => Proposal(c, arrivals, minPrice, me, prevHash)
    case Finalize(block) => Some(block)
  }

  /** The block that event i of a run finalizes. */
  ghost function FinalizedAt(c: ChainState, arrivals: seq<Tx>, minPrice: nat, me: Address, es: seq<Event>, i: nat)
    : Option<Block>
    requires i < |es|
  {
    var (ci, ai) := AdvanceAll(c, arrivals, minPrice, me, es[..i]);
    FinalizedIn(ci, ai, minPrice, me, es[i])
  }

  ghost predicate FinalizesHeight(c: ChainState, arrivals: seq<Tx>, minPrice: nat, me: Address, es: seq<Event>, i: nat,
                                  h: nat)
    requires i < |es|
  {
    var f := FinalizedAt(c, arrivals, minPrice, me, es, i);
    f.Some? && f.value.header.height == h
  }

  /** One event: the block it finalizes is stored under its own height over whatever was there, and no other height
      changes. */
  lemma AdvanceStores(c: ChainState, arrivals: seq<Tx>, minPrice: nat, me: Address, e: Event, h: nat)
    ensures var c', f := Advance(c, arrivals, minPrice, me, e).0, FinalizedIn(c, arrivals, minPrice, me, e);
            && c'.height == c.height
            && c'.finalized == c.finalized + (if f.Some? then 1 else 0)
            && if f.Some? && f.value.header.height == h then h in c'.blocks && c'.blocks[h] == f.value
               else (h in c'.blocks <==> h in c.blocks) && (h in c.blocks ==> c'.blocks[h] == c.blocks[h])
  {
    hide Proposal, Without, Elems;
  }

  lemma PrefixFinalizes(c: ChainState, arrivals: seq<Tx>, minPrice: nat, me: Address, es: seq<Event>, i: nat, h: nat)
    requires i < |es| - 1
    ensures FinalizedAt(c, arrivals, minPrice, me, es[..|es| - 1], i) == FinalizedAt(c, arrivals, minPrice, me, es, i)
    ensures FinalizesHeight(c, arrivals, minPrice, me, es[..|es| - 1], i, h) <==>
            FinalizesHeight(c, arrivals, minPrice, me, es, i, h)
  {
    assert es[..|es| - 1][..i] == es[..i];
  }

  /** A height is stored exactly if it was at the start or some event finalized a block of that height, own proposals
      included; what is stored there is the last such block. */
  lemma {:induction false} StoredIff(c: ChainState, arrivals: seq<Tx>, minPrice: nat, me: Address, es: seq<Event>,
                                   h: nat)
    ensures var c' := AdvanceAll(c, arrivals, minPrice, me, es).0;
            && c'.height == c.height
            && (h in c'.blocks <==>
                h in c.blocks || exists i :: 0 <= i < |es| && FinalizesHeight(c, arrivals, minPrice, me, es, i, h))
            && (forall i :: 0 <= i < |es| && FinalizesHeight(c, arrivals, minPrice, me, es, i, h)
                            && (forall j :: i < j < |es| ==> !FinalizesHeight(c, arrivals, minPrice, me, es, j, h)) ==>
                  h in c'.blocks && Some(c'.blocks[h]) == FinalizedAt(c, arrivals, minPrice, me, es, i))
            && (h in c.blocks
                && (forall i :: 0 <= i < |es| ==> !FinalizesHeight(c, arrivals, minPrice, me, es, i, h)) ==>
                  h in c'.blocks && c'.blocks[h] == c.blocks[h])
    decreases |es|
  {
    hide Advance, FinalizedIn, FinalizesHeight, FinalizedAt;
    if es != [] {
      var n := |es| - 1;
      var front := es[..n];
      StoredIff(c, arrivals, minPrice, me, front, h);
      StoredLast(c, arrivals, minPrice, me, es, h);
      var before, after := AdvanceAll(c, arrivals, minPrice, me, front).0, AdvanceAll(c, arrivals, minPrice, me, es).0;
      assert front == es[..n];
      forall i | 0 <= i < n
        ensures FinalizedAt(c, arrivals, minPrice, me, front, i) == FinalizedAt(c, arrivals, minPrice, me, es, i)
        ensures FinalizesHeight(c, arrivals, minPrice, me, front, i, h) <==>
                FinalizesHeight(c, arrivals, minPrice, me, es, i, h)
      {
        PrefixFinalizes(c, arrivals, minPrice, me, es, i, h);
      }
      if FinalizesHeight(c, arrivals, minPrice, me, es, n, h) {
        assert h in after.blocks && Some(after.blocks[h]) == FinalizedAt(c, arrivals, minPrice, me, es, n);
      } else if h in after.blocks && h !in c.blocks {
        var i :| 0 <= i < n && FinalizesHeight(c, arrivals, minPrice, me, front, i, h);
        assert FinalizesHeight(c, arrivals, minPrice, me, es, i, h);
      }
    }
  }

  /** The last event of a run stores its block, or leaves the height as the run before it did. */
  lemma StoredLast(c: ChainState, arrivals: seq<Tx>, minPrice: nat, me: Address, es: seq<Event>, h: nat)
    requires es != []
    ensures var n := |es| - 1;
            var before := AdvanceAll(c, arrivals, minPrice, me, es[..n]).0;
            var after := AdvanceAll(c, arrivals, minPrice, me, es).0;
            && after.height == before.height
            && if FinalizesHeight(c, arrivals, minPrice, me, es, n, h)
               then h in after.blocks && Some(after.blocks[h]) == FinalizedAt(c, arrivals, minPrice, me, es, n)
               else (h in after.blocks <==> h in before.blocks)
                    && (h in before.blocks ==> after.blocks[h] == before.blocks[h])
  {
    var n := |es| - 1;
    var (c1, a1) := AdvanceAll(c, arrivals, minPrice, me, es[..n]);
    AdvanceStores(c1, a1, minPrice, me, es[n], h);
    hide Advance, FinalizedIn;
  }

  ghost predicate Genesis(e: Event) {
    e.Finalize? && e.block.header.height == 0
  }

  /** Whatever arrives and is finalized, from wherever, the height stays where it is, and a block is stored at height 0
      only by finalizing one of that height from outside. */
  lemma {:induction false} HeightNeverAdvances(c: ChainState, arrivals: seq<Tx>, minPrice: nat, me: Address,
                                             es: seq<Event>)
    ensures var c' := AdvanceAll(c, arrivals, minPrice, me, es).0;
            && c'.height == c.height
            && (0 in c'.blocks <==> 0 in c.blocks || exists i :: 0 <= i < |es| && Genesis(es[i]))
    decreases |es|
  {
    hide Ranked, Without;
    if es != [] {
      var front := es[..|es| - 1];
      HeightNeverAdvances(c, arrivals, minPrice, me, front);
      assert (exists i :: 0 <= i < |es| && Genesis(es[i])) <==>
             Genesis(es[|es| - 1]) || exists i :: 0 <= i < |front| && Genesis(front[i]) by {
        if i :| 0 <= i < |es| && Genesis(es[i]) {
          if i < |front| { assert front[i] == es[i]; }
        }
        if i :| 0 <= i < |front| && Genesis(front[i]) { assert es[i] == front[i]; }
      }
    }
  }

  /** So an engine's own proposal validates exactly when a block of height 0 was finalized from outside and the
      validator set is empty. */
  lemma ProposalsNeedGenesis(minPrice: nat, me: Address, es: seq<Event>, prevHash: nat, vs: Validators,
                            check: HeaderCheck)
    ensures var (c, arrivals) := AdvanceAll(NewChain(), [], minPrice, me, es);
            var p := Proposal(c, arrivals, minPrice, me, prevHash);
            p.Some? ==>
              && p.value.header.height == 1
              && (Validates(c, vs, check, p.value) <==> vs == map[] && exists i :: 0 <= i < |es| && Genesis(es[i]))
  {
    hide Ranked, Validates, Genesis;
    HeightNeverAdvances(NewChain(), [], minPrice, me, es);
    var (c, arrivals) := AdvanceAll(NewChain(), [], minPrice, me, es);
    if Proposal(c, arrivals, minPrice, me, prevHash).Some? {
      ProposalValidatesIff(c, arrivals, minPrice, me, prevHash, vs, check);
    }
  }

  // ----- what is proposed, and by whom

  /** A proposal carries the pool's next block under the next height, the given predecessor, the proposer's name, the
      Merkle root and the count of its transactions, and no signature; there is none exactly when nothing is eligible.
      */
  lemma ProposalIsNextBlock(c: ChainState, arrivals: seq<Tx>, minPrice: nat, me: Address, prevHash: nat)
    ensures var p, next := Proposal(c, arrivals, minPrice, me, prevHash), NextBlock(arrivals, minPrice);
            && (p.None? <==> forall t :: t in arrivals ==> t.gasPrice < minPrice)
            && (p.Some? ==>
                  && p.value.transactions == next
                  && p.value.header.height == c.height + 1 && p.value.header.prevHash == prevHash
                  && p.value.header.validator == me && p.value.header.signature == Empty
                  && p.value.header.merkleRoot == Merkle.RootOf(Leaves(next))
                  && p.value.header.txCount == |next|)
  {
    NothingEligible(arrivals, minPrice);
    hide Ranked, Leaves, Merkle.RootOf;
  }

  lemma NothingEligible(arrivals: seq<Tx>, minPrice: nat)
    ensures Ranked(arrivals, minPrice) == [] <==> forall t :: t in arrivals ==> t.gasPrice < minPrice
  {
    RankedMembers(arrivals, minPrice);
    hide Ranked;
    var r := Ranked(arrivals, minPrice);
    if r != [] { assert r[0] in r; }
  }

  function Produces(n: nat, prevHash: nat): seq<Event> {
    if n == 0 then [] else Produces(n - 1, prevHash) + [Produce(prevHash)]
  }

  lemma {:induction false} PoolAfterProduces(c: ChainState, arrivals: seq<Tx>, minPrice: nat, me: Address,
                                             prevHash: nat, n: nat)
    requires n <= |Drain(arrivals, minPrice)|
    ensures AdvanceAll(c, arrivals, minPrice, me, Produces(n, prevHash)).1 == AfterBlocks(arrivals, minPrice, n)
  {
    hide Drain, AfterBlocks, Advance, NextBlock, Without;
    if n > 0 {
      PoolAfterProduces(c, arrivals, minPrice, me, prevHash, n - 1);
      AfterOneMore(arrivals, minPrice, n - 1);
      DrainAfter(arrivals, minPrice, n - 1);
      ProduceOnce(c, arrivals, minPrice, me, prevHash, n);
    } else {
      AfterNone(arrivals, minPrice);
    }
  }

  /** The engine left alone: its n-th proposal is the n-th drained block, and after the last one the pool holds what
      draining leaves and nothing more is proposed. */
  lemma EngineDrains(c: ChainState, arrivals: seq<Tx>, minPrice: nat, me: Address, prevHash: nat, n: nat)
    requires n <= |Drain(arrivals, minPrice)|
    ensures var (c', rest) := AdvanceAll(c, arrivals, minPrice, me, Produces(n, prevHash));
            var p := Proposal(c', rest, minPrice, me, prevHash);
            if n < |Drain(arrivals, minPrice)| then p.Some? && p.value.transactions == Drain(arrivals, minPrice)[n]
            else p.None? && rest == Leftover(arrivals, minPrice)
  {
    hide Drain, AfterBlocks, AdvanceAll, NextBlock, Leftover, Proposal, Produces;
    var (c', rest) := AdvanceAll(c, arrivals, minPrice, me, Produces(n, prevHash));
    PoolAfterProduces(c, arrivals, minPrice, me, prevHash, n);
    DrainAfter(arrivals, minPrice, n);
    ProposesNext(c', rest, minPrice, me, prevHash);
  }

  lemma ProposesNext(c: ChainState, arrivals: seq<Tx>, minPrice: nat, me: Address, prevHash: nat)
    ensures var p := Proposal(c, arrivals, minPrice, me, prevHash);
            && (p.None? <==> NextBlock(arrivals, minPrice) == [])
            && (p.Some? ==> p.value.transactions == NextBlock(arrivals, minPrice))
  {
    hide Ranked;
  }

  lemma ProduceOnce(c: ChainState, arrivals: seq<Tx>, minPrice: nat, me: Address, prevHash: nat, n: nat)
    requires n > 0
    requires var (c1, a1) := AdvanceAll(c, arrivals, minPrice, me, Produces(n - 1, prevHash));
             NextBlock(a1, minPrice) != []
    ensures var a1 := AdvanceAll(c, arrivals, minPrice, me, Produces(n - 1, prevHash)).1;
            AdvanceAll(c, arrivals, minPrice, me, Produces(n, prevHash)).1 ==
            Without(a1, Elems(NextBlock(a1, minPrice)))
  {
    var es := Produces(n, prevHash);
    assert es[..|es| - 1] == Produces(n - 1, prevHash);
    var (c1, a1) := AdvanceAll(c, arrivals, minPrice, me, Produces(n - 1, prevHash));
    ProposesNext(c1, a1, minPrice, me, prevHash);
    hide Proposal, NextBlock, Without;
  }

  /** Two valid blocks of one height under the same validators name the same leader, whose signature each carries. */
  lemma OneLeaderPerHeight(c: ChainState, d: ChainState, vs: Validators, check: HeaderCheck, x: Block, y: Block)
    requires Validates(c, vs, check, x) && Validates(d, vs, check, y)
    requires vs != map[] && x.header.height == y.header.height
    ensures x.header.validator == y.header.validator && x.header.validator in vs
    ensures x.header.signature.Bytes? && check(vs[x.header.validator].publicKey, x.header, x.header.signature.sig)
    ensures y.header.signature.Bytes? && check(vs[y.header.validator].publicKey, y.header, y.header.signature.sig)
  {
    SameRank(vs.Keys, x.header.validator, y.header.validator);
  }
}
