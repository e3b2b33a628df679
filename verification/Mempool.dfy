/** The pool of pending transactions: three maps kept in agreement, and selection by price. */
module Mempool {
  import opened PriceTime

  ghost function Preimages(hashes: seq<Digest>): set<Tx> {
    set h | h in hashes :: h.preimage
  }

  ghost function NonceKeys(txs: set<Tx>): set<(Address, nat)> {
    set t | t in txs :: (t.sender, t.nonce)
  }

  /** Naming one more transaction erases its nonce key if it was live, whether or not it was named before. */
  lemma OneMoreKey(byNonce: map<(Address, nat), Digest>, named: set<Tx>, live: set<Tx>, x: Tx)
    ensures byNonce - NonceKeys((named + {x}) * live) ==
            if x in live && x !in named then byNonce - NonceKeys(named * live) - {(x.sender, x.nonce)}
            else byNonce - NonceKeys(named * live)
  {
    var before, after := NonceKeys(named * live), NonceKeys((named + {x}) * live);
    if x in live {
      assert (named + {x}) * live == named * live + {x};
      assert after == before + {(x.sender, x.nonce)};
      if x in named { assert x in named * live; }
    } else {
      assert (named + {x}) * live == named * live;
    }
  }

  function Retain(bucket: seq<Digest>, hash: Digest): seq<Digest> {
    if bucket == [] then []
    else
      var front, last := bucket[..|bucket| - 1], bucket[|bucket| - 1];
      if last == hash then Retain(front, hash) else Retain(front, hash) + [last]
  }

  lemma {:induction false} RetainIsWithout(s: seq<Tx>, tx: Tx)
    ensures Retain(Digests(s), Digest(tx)) == Digests(Without(s, {tx}))
  {
    if s != [] {
      var front := s[..|s| - 1];
      assert Digests(s)[..|s| - 1] == Digests(front);
      RetainIsWithout(front, tx);
    }
  }

  datatype Result = Ok | Err(message: string)

  // ----- how each map reads the arrivals

  ghost predicate Live(transactions: map<Digest, Tx>, arrivals: seq<Tx>) {
    && (forall h :: h in transactions <==> h.preimage in arrivals)
    && (forall h :: h in transactions ==> transactions[h] == h.preimage)
  }

  ghost predicate Bucketed(byGasPrice: map<nat, seq<Digest>>, arrivals: seq<Tx>) {
    && (forall p :: p in byGasPrice <==> Tier(arrivals, p) != [])
    && (forall p :: p in byGasPrice ==> byGasPrice[p] == Digests(Tier(arrivals, p)))
  }

  ghost predicate Indexed(byNonce: map<(Address, nat), Digest>, arrivals: seq<Tx>) {
    forall k :: k in byNonce ==> var tx := byNonce[k].preimage; tx in arrivals && (tx.sender, tx.nonce) == k
  }

  function BucketOf(byGasPrice: map<nat, seq<Digest>>, price: nat): seq<Digest> {
    if price in byGasPrice then byGasPrice[price] else []
  }

  lemma BucketedAfterAdd(byGasPrice: map<nat, seq<Digest>>, arrivals: seq<Tx>, tx: Tx)
    requires Bucketed(byGasPrice, arrivals)
    ensures Bucketed(byGasPrice[tx.gasPrice := BucketOf(byGasPrice, tx.gasPrice) + [Digest(tx)]], arrivals + [tx])
  {
    hide Tier;
    var price := tx.gasPrice;
    forall p
      ensures Tier(arrivals + [tx], p) == if p == price then Tier(arrivals, p) + [tx] else Tier(arrivals, p)
    {
      TierSnoc(arrivals, tx, p);
    }
    assert BucketOf(byGasPrice, price) == Digests(Tier(arrivals, price));
    assert Digests(Tier(arrivals, price) + [tx]) == Digests(Tier(arrivals, price)) + [Digest(tx)];
  }

  function Pruned(byGasPrice: map<nat, seq<Digest>>, price: nat, hash: Digest): map<nat, seq<Digest>> {
    if price !in byGasPrice then byGasPrice
    else
      var entry := Retain(byGasPrice[price], hash);
      if entry == [] then byGasPrice - {price} else byGasPrice[price := entry]
  }

  lemma BucketedAfterRemove(byGasPrice: map<nat, seq<Digest>>, arrivals: seq<Tx>, tx: Tx)
    requires Bucketed(byGasPrice, arrivals)
    ensures Bucketed(Pruned(byGasPrice, tx.gasPrice, Digest(tx)), Without(arrivals, {tx}))
  {
    hide Tier, Retain, Without;
    var price, rest := tx.gasPrice, Without(arrivals, {tx});
    forall p | p != price ensures Tier(rest, p) == Tier(arrivals, p) {
      TierOfWithout(arrivals, {tx}, p);
      TierMembers(arrivals, p, tx);
      WithoutKeeps(Tier(arrivals, p), {tx});
    }
    TierOfWithout(arrivals, {tx}, price);
    RetainIsWithout(Tier(arrivals, price), tx);
    if price !in byGasPrice { WithoutKeeps(Tier(arrivals, price), {tx}); }
  }

  lemma LiveAfterRemove(transactions: map<Digest, Tx>, byNonce: map<(Address, nat), Digest>, arrivals: seq<Tx>, tx: Tx)
    requires Live(transactions, arrivals) && Indexed(byNonce, arrivals)
    ensures Live(transactions - {Digest(tx)}, Without(arrivals, {tx}))
    ensures Indexed(byNonce - {(tx.sender, tx.nonce)}, Without(arrivals, {tx}))
  {
    WithoutMembers(arrivals, {tx});
  }

  ghost function AtLeast(prices: set<nat>, minPrice: nat): set<nat> {
    set p | p in prices && p >= minPrice
  }

  ghost predicate IsHighest(todo: set<nat>, price: nat) {
    price in todo && forall q :: q in todo ==> q <= price
  }

  method HighestOf(todo: set<nat>) returns (price: nat)
    requires todo != {}
    ensures price in todo && IsHighest(todo, price)
  {
    MaxExists(todo);
    price :| price in todo && forall q :: q in todo ==> q <= price;
  }

  lemma Regroup<T>(a: seq<T>, b: seq<T>, c: seq<T>)
    ensures a + (b + c) == (a + b) + c
  {
  }

  lemma NextTier(arrivals: seq<Tx>, todo: set<nat>, minPrice: nat, price: nat)
    requires IsHighest(todo, price)
    ensures Tiers(arrivals, AtLeast(todo, minPrice)) ==
            if price < minPrice then [] else Tier(arrivals, price) + Tiers(arrivals, AtLeast(todo - {price}, minPrice))
    ensures price < minPrice ==> AtLeast(todo - {price}, minPrice) == {} && Tiers(arrivals, {}) == []
  {
    var left := AtLeast(todo, minPrice);
    if price < minPrice {
      assert left == {};
    } else {
      assert price in left && Highest(left) == price;
      assert left - {price} == AtLeast(todo - {price}, minPrice);
    }
  }

  lemma NoneLeft(arrivals: seq<Tx>, minPrice: nat)
    ensures Tiers(arrivals, AtLeast({}, minPrice)) == []
  {
    assert AtLeast({}, minPrice) == {};
  }

  class Mempool {
    var transactions: map<Digest, Tx>
    var byNonce: map<(Address, nat), Digest>
    var byGasPrice: map<nat, seq<Digest>>
    const maxSize: nat
    /** Every addition of a transaction that is still live, oldest first; a re-added one occurs once per addition. */
    ghost var arrivals: seq<Tx>

    ghost predicate Valid()
      reads this
    {
      && Live(transactions, arrivals)
      && Bucketed(byGasPrice, arrivals)
      && Indexed(byNonce, arrivals)
      && |transactions| <= maxSize
    }

    constructor (maxSize: nat)
      ensures Valid() && arrivals == [] && this.maxSize == maxSize
    {
      this.maxSize := maxSize;
      transactions, byNonce, byGasPrice := map[], map[], map[];
      arrivals := [];
    }

    /** Fails exactly when full. A live transaction is accepted again and gets a second bucket entry. */
    method AddTransaction(tx: Tx) returns (r: Result)
      requires Valid()
      modifies this
      ensures Valid()
      ensures r.Ok? <==> old(|transactions|) < maxSize
      ensures arrivals == if r.Ok? then old(arrivals) + [tx] else old(arrivals)
      ensures byNonce == if r.Ok? then old(byNonce)[(tx.sender, tx.nonce) := Digest(tx)] else old(byNonce)
    {
      hide Bucketed;
      if |transactions| >= maxSize {
        return Err("Mempool full");
      }
      var hash := Digest(tx);
      transactions := transactions[hash := tx];
      byNonce := byNonce[(tx.sender, tx.nonce) := hash];
      BucketedAfterAdd(byGasPrice, arrivals, tx);
      byGasPrice := byGasPrice[tx.gasPrice := BucketOf(byGasPrice, tx.gasPrice) + [hash]];
      arrivals := arrivals + [tx];
      return Ok;
    }

    /** Walks the buckets from the highest price down; the limit is tested after each push, so 0 acts like 1. */
    method GetTransactions(limit: nat, minGasPrice: nat) returns (result: seq<Tx>)
      requires Valid()
      ensures result == First(Ranked(arrivals, minGasPrice), if limit == 0 then 1 else limit)
    {
      hide Tier, Tiers, Digests, Bucketed, Live, Indexed, Ranked, AtLeast, First, IsHighest;
      result := [];
      var todo := byGasPrice.Keys;
      ghost var want := if limit == 0 then 1 else limit;
      ghost var ranked := Ranked(arrivals, minGasPrice);
      BucketsAreTiers(minGasPrice);
      NoneLeft(arrivals, minGasPrice);
      while todo != {}
        invariant todo <= byGasPrice.Keys && |result| < want
        invariant ranked == result + Tiers(arrivals, AtLeast(todo, minGasPrice))
        decreases todo
      {
        var price := HighestOf(todo);
        NextTier(arrivals, todo, minGasPrice, price);
        todo := todo - {price};
        if price < minGasPrice {
          break;
        }
        ghost var start, rest := result, Tiers(arrivals, AtLeast(todo, minGasPrice));
        var full;
        result, full := TakeBucket(price, limit, result);
        Regroup(start, Tier(arrivals, price), rest);
        if full {
          FirstOfPrefix(start + Tier(arrivals, price), rest, want);
          return;
        }
      }
      FirstOfShort(ranked, result, Tiers(arrivals, AtLeast(todo, minGasPrice)), want);
    }

    lemma FirstOfShort(ranked: seq<Tx>, result: seq<Tx>, rest: seq<Tx>, n: nat)
      requires ranked == result + rest && rest == [] && |result| < n
      ensures First(ranked, n) == result
    {
    }

    lemma FirstOfPrefix(a: seq<Tx>, b: seq<Tx>, n: nat)
      requires n <= |a|
      ensures First(a + b, n) == a[..n]
    {
      assert (a + b)[..n] == a[..n];
    }

    /** A bucket names the live transactions of its price in order of arrival. */
    lemma BucketEntries(price: nat)
      requires Valid() && price in byGasPrice
      ensures var hashes, tier := byGasPrice[price], Tier(arrivals, price);
              |hashes| == |tier| && forall i :: 0 <= i < |tier| ==>
                hashes[i] in transactions && transactions[hashes[i]] == tier[i]
    {
      var hashes, tier := byGasPrice[price], Tier(arrivals, price);
      forall i | 0 <= i < |tier| ensures hashes[i] in transactions && transactions[hashes[i]] == tier[i] {
        TierMembers(arrivals, price, tier[i]);
        assert hashes[i] == Digest(tier[i]);
      }
    }

    /** Copies one bucket onto the result, stopping as soon as the limit is reached. */
    method TakeBucket(price: nat, limit: nat, start: seq<Tx>) returns (result: seq<Tx>, full: bool)
      requires Valid() && price in byGasPrice
      requires |start| < if limit == 0 then 1 else limit
      ensures var want := if limit == 0 then 1 else limit;
              && full == (|start| + |Tier(arrivals, price)| >= want)
              && result == if full then (start + Tier(arrivals, price))[..want] else start + Tier(arrivals, price)
    {
      hide Valid, Tier;
      var hashes := byGasPrice[price];
      ghost var tier := Tier(arrivals, price);
      BucketEntries(price);
      result := start;
      for i := 0 to |hashes|
        invariant result == start + tier[..i] && |result| < if limit == 0 then 1 else limit
      {
        if hashes[i] in transactions {
          result := result + [transactions[hashes[i]]];
          TakeOne(start, tier, i);
          if |result| >= limit {
            return result, true;
          }
        }
      }
      assert tier[..|hashes|] == tier;
      return result, false;
    }

    lemma TakeOne(start: seq<Tx>, tier: seq<Tx>, i: nat)
      requires i < |tier|
      ensures start + tier[..i] + [tier[i]] == start + tier[..i + 1] == (start + tier)[..|start| + i + 1]
    {
      assert tier[..i + 1] == tier[..i] + [tier[i]];
    }

    lemma BucketsAreTiers(minPrice: nat)
      requires Valid()
      ensures Ranked(arrivals, minPrice) == Tiers(arrivals, AtLeast(byGasPrice.Keys, minPrice))
    {
      var ps := AtLeast(byGasPrice.Keys, minPrice);
      forall p | p in ps ensures p in Prices(arrivals, minPrice) {
        TierMembers(arrivals, p, Tier(arrivals, p)[0]);
      }
      forall p | p in Prices(arrivals, minPrice) ensures p in ps {
        var t :| t in arrivals && t.gasPrice >= minPrice && t.gasPrice == p;
        TierMembers(arrivals, p, t);
      }
      assert ps == Prices(arrivals, minPrice);
    }

    /** Removes every copy of each named transaction; unknown hashes are ignored. */
    method RemoveTransactions(hashes: seq<Digest>)
      requires Valid()
      modifies this
      ensures Valid()
      ensures arrivals == Without(old(arrivals), Preimages(hashes))
      ensures byNonce == old(byNonce) - NonceKeys(Preimages(hashes) * Elems(old(arrivals)))
    {
      hide Valid, Without, NonceKeys;
      WithoutKeeps(arrivals, {});
      NoKeys(byNonce, Elems(arrivals));
      assert Preimages(hashes[..0]) == {};
      for i := 0 to |hashes|
        invariant Valid()
        invariant byNonce == old(byNonce) - NonceKeys(Preimages(hashes[..i]) * Elems(old(arrivals)))
        invariant arrivals == Without(old(arrivals), Preimages(hashes[..i]))
      {
        WithoutMembers(old(arrivals), Preimages(hashes[..i]));
        OneMoreKey(old(byNonce), Preimages(hashes[..i]), Elems(old(arrivals)), hashes[i].preimage);
        RemoveOne(hashes[i]);
        WithoutTwice(old(arrivals), Preimages(hashes[..i]), {hashes[i].preimage});
        assert hashes[..i + 1] == hashes[..i] + [hashes[i]];
        assert Preimages(hashes[..i + 1]) == Preimages(hashes[..i]) + {hashes[i].preimage};
      }
      assert hashes[..|hashes|] == hashes;
    }

    method RemoveOne(hash: Digest)
      requires Valid()
      modifies this
      ensures Valid()
      ensures arrivals == Without(old(arrivals), {hash.preimage})
      ensures byNonce == old(byNonce)
                         - if hash.preimage in old(arrivals) then {(hash.preimage.sender, hash.preimage.nonce)} else {}
    {
      hide Bucketed, Pruned, Without, Indexed;
      if hash !in transactions {
        WithoutKeeps(arrivals, {hash.preimage});
        return;
      }
      var tx := transactions[hash];
      LiveAfterRemove(transactions, byNonce, arrivals, tx);
      transactions := transactions - {hash};
      byNonce := byNonce - {(tx.sender, tx.nonce)};
      BucketedAfterRemove(byGasPrice, arrivals, tx);
      byGasPrice := Pruned(byGasPrice, tx.gasPrice, hash);
      arrivals := Without(arrivals, {tx});
    }

    method Size() returns (n: nat)
      requires Valid()
      ensures n == |transactions| <= maxSize
      ensures n <= |arrivals|
    {
      n := |transactions|;
      LiveAtMostArrivals(transactions.Keys, arrivals);
      assert |transactions.Keys| == |transactions|;
    }
  }

  lemma NoKeys(byNonce: map<(Address, nat), Digest>, live: set<Tx>)
    ensures byNonce - NonceKeys({} * live) == byNonce
  {
    assert NonceKeys({} * live) == {};
  }

  lemma {:induction false} LiveAtMostArrivals(live: set<Digest>, list: seq<Tx>)
    requires forall h :: h in live ==> h.preimage in list
    ensures |live| <= |list|
  {
    if list == [] {
      assert live == {};
    } else {
      var front, last := list[..|list| - 1], Digest(list[|list| - 1]);
      assert list == front + [last.preimage];
      LiveAtMostArrivals(live - {last}, front);
      if last in live { assert live == (live - {last}) + {last}; } else { assert live - {last} == live; }
    }
  }

  /** What the three maps say about each other in every valid pool: a bucket holds, as a set, exactly the live hashes
      at its price, none is empty, and every nonce entry names a live transaction with that sender and nonce. */
  lemma MapsAgree(pool: Mempool, price: nat, h: Digest)
    requires pool.Valid()
    ensures price in pool.byGasPrice ==> pool.byGasPrice[price] != []
    ensures h in pool.transactions && h.preimage.gasPrice == price <==>
            price in pool.byGasPrice && h in pool.byGasPrice[price]
    ensures forall k :: k in pool.byNonce && pool.byNonce[k] == h ==>
              h in pool.transactions && k == (h.preimage.sender, h.preimage.nonce)
  {
    TierMembers(pool.arrivals, price, h.preimage);
    if price in pool.byGasPrice {
      var tier := Tier(pool.arrivals, price);
      if h.preimage in tier {
        var i :| 0 <= i < |tier| && tier[i] == h.preimage;
        assert pool.byGasPrice[price][i] == h;
      }
    }
  }
}
