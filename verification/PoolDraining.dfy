/** Proposing and finalizing with no arrivals until nothing is left to propose. */
module PoolDraining {
  import opened Lists
  import opened PriceTime

  const BLOCK_LIMIT: nat := 1000

  ghost function NextBlock(arrivals: seq<Tx>, minPrice: nat): seq<Tx> {
    First(Ranked(arrivals, minPrice), BLOCK_LIMIT)
  }

  /** A block holds the first thousand ranked transactions, or all where there are fewer. */
  lemma NextBlockIsFront(arrivals: seq<Tx>, minPrice: nat, k: nat)
    ensures var r, block := Ranked(arrivals, minPrice), NextBlock(arrivals, minPrice);
            && |block| == (if |r| < 1000 then |r| else 1000)
            && (k < |block| ==> block[k] == r[k])
  {
    hide Ranked;
  }

  lemma NextBlockShrinks(arrivals: seq<Tx>, minPrice: nat)
    requires NextBlock(arrivals, minPrice) != []
    ensures |Without(arrivals, Elems(NextBlock(arrivals, minPrice)))| < |arrivals|
  {
    var block := NextBlock(arrivals, minPrice);
    RankedMembers(arrivals, minPrice);
    assert block[0] in Ranked(arrivals, minPrice);
    WithoutMembers(arrivals, Elems(block));
    assert block[0] in arrivals && block[0] in Elems(block);
  }

  /** The transaction lists of the blocks produced by proposing and finalizing until nothing is proposed. */
  ghost function Drain(arrivals: seq<Tx>, minPrice: nat): seq<seq<Tx>>
    decreases |arrivals|
  {
    var block := NextBlock(arrivals, minPrice);
    if block == [] then []
    else
      NextBlockShrinks(arrivals, minPrice);
      [block] + Drain(Without(arrivals, Elems(block)), minPrice)
  }

  /** What the pool holds afterwards. */
  ghost function Leftover(arrivals: seq<Tx>, minPrice: nat): seq<Tx>
    decreases |arrivals|
  {
    var block := NextBlock(arrivals, minPrice);
    if block == [] then arrivals
    else
      NextBlockShrinks(arrivals, minPrice);
      Leftover(Without(arrivals, Elems(block)), minPrice)
  }

  /** The pool after n blocks. */
  ghost function AfterBlocks(arrivals: seq<Tx>, minPrice: nat, n: nat): seq<Tx> {
    if n == 0 then arrivals
    else
      var before := AfterBlocks(arrivals, minPrice, n - 1);
      Without(before, Elems(NextBlock(before, minPrice)))
  }

  lemma AfterNone(arrivals: seq<Tx>, minPrice: nat)
    ensures AfterBlocks(arrivals, minPrice, 0) == arrivals
  {
  }

  lemma AfterOneMore(arrivals: seq<Tx>, minPrice: nat, n: nat)
    ensures var before := AfterBlocks(arrivals, minPrice, n);
            AfterBlocks(arrivals, minPrice, n + 1) == Without(before, Elems(NextBlock(before, minPrice)))
  {
  }

  lemma {:induction false} AfterFirst(arrivals: seq<Tx>, minPrice: nat, n: nat)
    ensures AfterBlocks(arrivals, minPrice, n + 1) ==
            AfterBlocks(Without(arrivals, Elems(NextBlock(arrivals, minPrice))), minPrice, n)
  {
    hide NextBlock, Without;
    if n > 0 {
      AfterFirst(arrivals, minPrice, n - 1);
    }
  }

  /** The n-th drained block is the next block after n, and after the last there is none. */
  lemma {:induction false} DrainAfter(arrivals: seq<Tx>, minPrice: nat, n: nat)
    requires n <= |Drain(arrivals, minPrice)|
    ensures n < |Drain(arrivals, minPrice)| ==>
              && Drain(arrivals, minPrice)[n] == NextBlock(AfterBlocks(arrivals, minPrice, n), minPrice)
              && Drain(arrivals, minPrice)[n] != []
    ensures n == |Drain(arrivals, minPrice)| ==>
              && NextBlock(AfterBlocks(arrivals, minPrice, n), minPrice) == []
              && AfterBlocks(arrivals, minPrice, n) == Leftover(arrivals, minPrice)
    decreases n
  {
    hide Ranked, First;
    var block := NextBlock(arrivals, minPrice);
    if block != [] {
      NextBlockShrinks(arrivals, minPrice);
      var rest := Without(arrivals, Elems(block));
      assert Drain(arrivals, minPrice) == [block] + Drain(rest, minPrice);
      hide NextBlock, Without;
      if n > 0 {
        AfterFirst(arrivals, minPrice, n - 1);
        DrainAfter(rest, minPrice, n - 1);
      }
    }
  }

  ghost function Concat(blocks: seq<seq<Tx>>): seq<Tx> {
    if blocks == [] then [] else blocks[0] + Concat(blocks[1..])
  }

  lemma PrefixElems(r: seq<Tx>, n: nat)
    ensures Elems(First(r, n)) == Elems(r[..if |r| <= n then |r| else n])
    ensures r == First(r, n) + r[if |r| <= n then |r| else n..]
  {
    if |r| <= n { assert r[..|r|] == r; }
  }

  // ----- when the drained blocks are the ranking

  function CutAt(r: seq<Tx>): nat {
    if |r| <= BLOCK_LIMIT then |r| else BLOCK_LIMIT
  }

  /** No transaction stands both before and after a multiple of the block limit. */
  ghost predicate NoneStraddles(r: seq<Tx>)
    decreases |r|
  {
    r != [] ==> Elems(r[..CutAt(r)]) !! Elems(r[CutAt(r)..]) && NoneStraddles(r[CutAt(r)..])
  }

  lemma {:induction false} WithoutLength(s: seq<Tx>, gone: set<Tx>)
    ensures |Without(s, gone)| <= |s|
    ensures |Without(s, gone)| == |s| <==> Elems(s) !! gone
    ensures Elems(s) !! gone ==> Without(s, gone) == s
  {
    if s != [] {
      var front, last := s[..|s| - 1], s[|s| - 1];
      assert s == front + [last];
      WithoutLength(front, gone);
      assert Elems(s) == Elems(front) + {last};
    }
  }

  /** What is left of the ranking after a block: what stands behind it, except further copies of its transactions. */
  lemma RankedAfterBlock(arrivals: seq<Tx>, minPrice: nat)
    ensures var r, block := Ranked(arrivals, minPrice), NextBlock(arrivals, minPrice);
            && block == r[..CutAt(r)]
            && Ranked(Without(arrivals, Elems(block)), minPrice) == Without(r[CutAt(r)..], Elems(block))
  {
    var r, block := Ranked(arrivals, minPrice), NextBlock(arrivals, minPrice);
    PrefixElems(r, BLOCK_LIMIT);
    RankedOfWithout(arrivals, Elems(block), minPrice);
    WithoutConcat(block, r[CutAt(r)..], Elems(block));
    WithoutAll(block, Elems(block));
  }

  lemma {:induction false} DrainLength(arrivals: seq<Tx>, minPrice: nat)
    ensures |Concat(Drain(arrivals, minPrice))| <= |Ranked(arrivals, minPrice)|
    decreases |arrivals|
  {
    var r, block := Ranked(arrivals, minPrice), NextBlock(arrivals, minPrice);
    if block != [] {
      NextBlockShrinks(arrivals, minPrice);
      var rest := Without(arrivals, Elems(block));
      RankedAfterBlock(arrivals, minPrice);
      DrainLength(rest, minPrice);
      WithoutLength(r[CutAt(r)..], Elems(block));
      assert Drain(arrivals, minPrice)[1..] == Drain(rest, minPrice);
    }
  }

  /** The blocks concatenated are the ranking exactly when no transaction straddles a block boundary. */
  lemma {:induction false} DrainIsRankedIff(arrivals: seq<Tx>, minPrice: nat)
    ensures Concat(Drain(arrivals, minPrice)) == Ranked(arrivals, minPrice) <==>
            NoneStraddles(Ranked(arrivals, minPrice))
    decreases |arrivals|
  {
    hide Ranked, Without, NoneStraddles, Elems;
    var r, block := Ranked(arrivals, minPrice), NextBlock(arrivals, minPrice);
    RankedAfterBlock(arrivals, minPrice);
    if block == [] {
      NothingStraddles(r);
    } else {
      NextBlockShrinks(arrivals, minPrice);
      var rest, behind := Without(arrivals, Elems(block)), r[CutAt(r)..];
      DrainLength(rest, minPrice);
      DrainIsRankedIff(rest, minPrice);
      assert Drain(arrivals, minPrice) == [block] + Drain(rest, minPrice);
      assert Drain(arrivals, minPrice)[1..] == Drain(rest, minPrice);
      StraddleStep(r, Concat(Drain(rest, minPrice)));
    }
  }

  lemma NothingStraddles(r: seq<Tx>)
    requires r[..CutAt(r)] == []
    ensures r == [] && NoneStraddles(r)
  {
  }

  /** The block at the front of r, what stands behind it, and some continuation no longer than what survives there. */
  lemma StraddleStep(r: seq<Tx>, later: seq<Tx>)
    requires r != []
    requires var block, behind := r[..CutAt(r)], r[CutAt(r)..];
             var next := Without(behind, Elems(block));
             |later| <= |next| && (later == next <==> NoneStraddles(next))
    ensures r[..CutAt(r)] + later == r <==> NoneStraddles(r)
  {
    var block, behind := r[..CutAt(r)], r[CutAt(r)..];
    WithoutLength(behind, Elems(block));
    SameTail(block, behind, later);
    assert r == block + behind;
    hide Without;
  }

  lemma SameTail(a: seq<Tx>, b: seq<Tx>, c: seq<Tx>)
    ensures a + b == a + c <==> b == c
  {
    if a + b == a + c {
      assert b == (a + b)[|a|..] && c == (a + c)[|a|..];
    }
  }

  /** So it is when no eligible live transaction was added twice, and then each is in one block, once. */
  lemma {:induction false} DrainIsRanked(arrivals: seq<Tx>, minPrice: nat)
    requires EligibleOnce(arrivals, minPrice)
    ensures Concat(Drain(arrivals, minPrice)) == Ranked(arrivals, minPrice)
    ensures NoRepeats(Concat(Drain(arrivals, minPrice)))
  {
    RankedNoRepeats(arrivals, minPrice);
    NoRepeatsNoStraddle(Ranked(arrivals, minPrice));
    DrainIsRankedIff(arrivals, minPrice);
  }

  lemma {:induction false} NoRepeatsNoStraddle(r: seq<Tx>)
    requires NoRepeats(r)
    ensures NoneStraddles(r)
    decreases |r|
  {
    if r != [] {
      var block, behind := r[..CutAt(r)], r[CutAt(r)..];
      assert r == block + behind;
      SuffixNoRepeats(block, behind);
      NoRepeatsNoStraddle(behind);
      forall t | t in block ensures t !in behind {
        var i :| 0 <= i < |block| && block[i] == t;
        assert r[i] == t;
        forall j | 0 <= j < |behind| ensures behind[j] != t { assert r[CutAt(r) + j] == behind[j]; }
      }
    }
  }

  lemma SuffixNoRepeats(a: seq<Tx>, b: seq<Tx>)
    requires NoRepeats(a + b)
    ensures NoRepeats(b)
  {
    if b != [] { HeadIsNew(a, b); }
  }

  /** Whatever was added however often, draining leaves exactly the transactions below the minimum price. */
  lemma {:induction false} DrainLeaves(arrivals: seq<Tx>, minPrice: nat)
    ensures Leftover(arrivals, minPrice) == Without(arrivals, set t | t in arrivals && t.gasPrice >= minPrice)
    decreases |arrivals|
  {
    var block := NextBlock(arrivals, minPrice);
    var eligible := set t | t in arrivals && t.gasPrice >= minPrice;
    RankedMembers(arrivals, minPrice);
    if block == [] {
      assert Ranked(arrivals, minPrice) == [];
      WithoutKeeps(arrivals, eligible);
    } else {
      NextBlockShrinks(arrivals, minPrice);
      var rest := Without(arrivals, Elems(block));
      DrainLeaves(rest, minPrice);
      WithoutMembers(arrivals, Elems(block));
      var eligibleRest := set t | t in rest && t.gasPrice >= minPrice;
      WithoutTwice(arrivals, Elems(block), eligibleRest);
      PrefixElems(Ranked(arrivals, minPrice), BLOCK_LIMIT);
      assert Elems(block) + eligibleRest == eligible by {
        forall t | t in Elems(block) ensures t in eligible {
          assert t in Ranked(arrivals, minPrice);
        }
      }
    }
  }

  /** Whatever was added however often, the drained blocks carry exactly the eligible set. */
  lemma {:induction false} DrainCarries(arrivals: seq<Tx>, minPrice: nat)
    ensures forall t :: t in Concat(Drain(arrivals, minPrice)) <==> t in arrivals && t.gasPrice >= minPrice
    decreases |arrivals|
  {
    var r, block := Ranked(arrivals, minPrice), NextBlock(arrivals, minPrice);
    RankedMembers(arrivals, minPrice);
    if block == [] {
      assert r == [];
    } else {
      NextBlockShrinks(arrivals, minPrice);
      var rest := Without(arrivals, Elems(block));
      DrainCarries(rest, minPrice);
      WithoutMembers(arrivals, Elems(block));
      assert Drain(arrivals, minPrice)[1..] == Drain(rest, minPrice);
      RankedAfterBlock(arrivals, minPrice);
      forall t | t in block ensures t in arrivals && t.gasPrice >= minPrice { assert t in r; }
    }
  }

  ghost predicate PriceFalls(s: seq<Tx>) {
    forall j, k :: 0 <= j < k < |s| ==> s[j].gasPrice >= s[k].gasPrice
  }

  lemma JoinPriceFalls(a: seq<Tx>, b: seq<Tx>)
    requires PriceFalls(a) && PriceFalls(b)
    requires forall s, t :: s in a && t in b ==> s.gasPrice >= t.gasPrice
    ensures PriceFalls(a + b)
  {
    forall j, k | 0 <= j < k < |a + b| ensures (a + b)[j].gasPrice >= (a + b)[k].gasPrice {
      if j < |a| <= k { assert a[j] in a && b[k - |a|] in b; }
    }
  }

  /** In every pool the drained blocks carry the eligible set in non-increasing price order. */
  lemma {:induction false} DrainByPrice(arrivals: seq<Tx>, minPrice: nat)
    ensures var all := Concat(Drain(arrivals, minPrice));
            && (forall t :: t in all <==> t in arrivals && t.gasPrice >= minPrice)
            && (forall j, k :: 0 <= j < k < |all| ==> all[j].gasPrice >= all[k].gasPrice)
    decreases |arrivals|
  {
    DrainCarries(arrivals, minPrice);
    var r, block := Ranked(arrivals, minPrice), NextBlock(arrivals, minPrice);
    if block != [] {
      NextBlockShrinks(arrivals, minPrice);
      var rest := Without(arrivals, Elems(block));
      DrainByPrice(rest, minPrice);
      RankedAfterBlock(arrivals, minPrice);
      var later := Concat(Drain(rest, minPrice));
      RankedFalls(arrivals, minPrice);
      RankedMembers(rest, minPrice);
      WithoutMembers(r[CutAt(r)..], Elems(block));
      forall s, t | s in block && t in later ensures s.gasPrice >= t.gasPrice {
        assert t in Ranked(rest, minPrice);
        BeforeAndAfter(r, CutAt(r), s, t);
      }
      JoinPriceFalls(block, later);
      assert Drain(arrivals, minPrice)[1..] == Drain(rest, minPrice);
    }
  }

  lemma RankedFalls(arrivals: seq<Tx>, minPrice: nat)
    ensures PriceFalls(Ranked(arrivals, minPrice))
  {
    var idx := RankedIsPriceTime(arrivals, minPrice);
  }

  lemma BeforeAndAfter(r: seq<Tx>, n: nat, s: Tx, t: Tx)
    requires PriceFalls(r) && n <= |r| && s in r[..n] && t in r[n..]
    ensures s.gasPrice >= t.gasPrice
  {
    var j :| 0 <= j < n && r[j] == s;
    var k :| n <= k < |r| && r[k] == t;
  }

  /** No transaction is in two blocks, whatever was added again: finalizing removes every copy. */
  lemma {:induction false} BlocksDisjoint(arrivals: seq<Tx>, minPrice: nat, i: nat, j: nat)
    requires i < j < |Drain(arrivals, minPrice)|
    ensures Elems(Drain(arrivals, minPrice)[i]) !! Elems(Drain(arrivals, minPrice)[j])
    decreases |arrivals|
  {
    var block := NextBlock(arrivals, minPrice);
    NextBlockShrinks(arrivals, minPrice);
    var rest := Without(arrivals, Elems(block));
    var later := Drain(rest, minPrice);
    assert Drain(arrivals, minPrice) == [block] + later;
    if i == 0 {
      DrainCarries(rest, minPrice);
      WithoutMembers(arrivals, Elems(block));
      InConcat(later, j - 1);
    } else {
      BlocksDisjoint(rest, minPrice, i - 1, j - 1);
    }
  }

  lemma {:induction false} InConcat(blocks: seq<seq<Tx>>, i: nat)
    requires i < |blocks|
    ensures Elems(blocks[i]) <= Elems(Concat(blocks))
  {
    if i > 0 { InConcat(blocks[1..], i - 1); }
  }

  ghost predicate EachOnce(blocks: seq<seq<Tx>>) {
    forall i :: 0 <= i < |blocks| ==> NoRepeats(blocks[i])
  }

  /** In pools of any size repetitions occur only inside a block: the blocks repeat nothing exactly when none of them
      repeats anything. */
  lemma {:induction false} RepeatsStayInBlocks(arrivals: seq<Tx>, minPrice: nat)
    ensures NoRepeats(Concat(Drain(arrivals, minPrice))) <==> EachOnce(Drain(arrivals, minPrice))
    decreases |arrivals|
  {
    var block := NextBlock(arrivals, minPrice);
    if block != [] {
      NextBlockShrinks(arrivals, minPrice);
      var rest := Without(arrivals, Elems(block));
      var later := Drain(rest, minPrice);
      RepeatsStayInBlocks(rest, minPrice);
      DrainCarries(rest, minPrice);
      WithoutMembers(arrivals, Elems(block));
      assert Drain(arrivals, minPrice) == [block] + later && ([block] + later)[1..] == later;
      JoinNoRepeats(block, Concat(later));
      OneMoreBlock(block, later);
    } else {
      EmptyNoRepeats<Tx>();
    }
  }

  lemma OneMoreBlock(block: seq<Tx>, later: seq<seq<Tx>>)
    ensures EachOnce([block] + later) <==> NoRepeats(block) && EachOnce(later)
  {
    var all := [block] + later;
    assert all[0] == block;
    assert forall i :: 0 <= i < |later| ==> later[i] == all[i + 1];
  }

  lemma JoinNoRepeats(a: seq<Tx>, b: seq<Tx>)
    requires forall t :: t in a ==> t !in b
    ensures NoRepeats(a + b) <==> NoRepeats(a) && NoRepeats(b)
  {
    var s := a + b;
    if NoRepeats(s) {
      forall i, j | 0 <= i < j < |a| ensures a[i] != a[j] { assert s[i] != s[j]; }
      SuffixNoRepeats(a, b);
    }
    if NoRepeats(a) && NoRepeats(b) {
      forall i, j | 0 <= i < j < |s| ensures s[i] != s[j] {
        if i < |a| <= j { assert a[i] in a && b[j - |a|] in b; }
      }
    }
  }

  /** While everything eligible fits one block, the drained blocks repeat a transaction exactly when an eligible one
      was added again while live: such a block carries it twice. */
  lemma OneBlockRepeats(arrivals: seq<Tx>, minPrice: nat)
    requires 0 < |Ranked(arrivals, minPrice)| <= BLOCK_LIMIT
    ensures Drain(arrivals, minPrice) == [Ranked(arrivals, minPrice)]
    ensures NoRepeats(Concat(Drain(arrivals, minPrice))) <==> EligibleOnce(arrivals, minPrice)
  {
    var r := Ranked(arrivals, minPrice);
    NextBlockShrinks(arrivals, minPrice);
    var rest := Without(arrivals, Elems(r));
    RankedOfWithout(arrivals, Elems(r), minPrice);
    WithoutAll(r, Elems(r));
    assert Drain(rest, minPrice) == [];
    assert Concat([r]) == r by { assert [r][1..] == []; }
    RankedNoRepeats(arrivals, minPrice);
  }
}
