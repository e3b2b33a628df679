/** Which blocks execute alike in every order: exactly those in which no transaction can sway another. */
module BlockSchedules {
  import opened Arithmetic
  import opened Lists
  import opened MachineInts
  import opened TransferSteps

  // ----- when one transaction sways another

  /** Running t2 first can turn the outcome of t1: it debits, or credits, the account that t1 must draw on. A credit to
      oneself counts unless it is so large that wherever it succeeds it wraps to no less than t1's cost. */
  predicate Sways(t2: Transaction, t1: Transaction) {
    && !t1.txType.Unsupported? && !t2.txType.Unsupported? && TotalCost(t1) > 0
    && if t2.sender != Receiver(t2) then
         (t1.sender == t2.sender && TotalCost(t2) > 0) || (t1.sender == Receiver(t2) && t2.value > 0)
       else t1.sender == t2.sender && t2.value > 0 && TotalCost(t2) + t2.value < M128 + TotalCost(t1)
  }

  predicate Interfere(t1: Transaction, t2: Transaction) {
    Sways(t1, t2) || Sways(t2, t1)
  }

  ghost predicate NoneInterfere(txs: seq<Transaction>) {
    forall i, j :: 0 <= i < |txs| && 0 <= j < |txs| && i != j ==> !Sways(txs[i], txs[j])
  }

  lemma SumWraps(x: nat, v: nat)
    requires x < M128 && v < M128
    ensures (x + v) % M128 == if x + v < M128 then x + v else x + v - M128
  {
  }

  /** Without sway, t1 has the same result whether t2 runs first or not. */
  lemma Unswayed(s: Accounts, t2: Transaction, t1: Transaction)
    requires !Sways(t2, t1)
    ensures Execute(Execute(s, t2).0, t1).1 == Execute(s, t1).1
  {
    hide Execute, TotalCost;
    var s2 := Execute(s, t2).0;
    ExecuteEffect(s, t2);
    ExecuteEffect(s, t1);
    ExecuteEffect(s2, t1);
    SumWraps(BalanceIn(s, Receiver(t2)), t2.value);
    assert t1.sender !in Footprint(t2) ==> AccountOf(s2, t1.sender) == AccountOf(s, t1.sender);
    ResultOfSuccess(s2, s, t1);
  }

  lemma SwayedByDebit(t2: Transaction, t1: Transaction) returns (s: Accounts)
    requires !t1.txType.Unsupported? && !t2.txType.Unsupported? && TotalCost(t1) > 0
    requires t1.sender == t2.sender != Receiver(t2) && TotalCost(t2) > 0
    ensures Execute(Execute(s, t2).0, t1).1.success != Execute(s, t1).1.success
  {
    hide Execute, TotalCost;
    s := map[t1.sender := Account(0, if TotalCost(t1) < TotalCost(t2) then TotalCost(t2) else TotalCost(t1))];
    ExecuteEffect(s, t2);
    ExecuteEffect(s, t1);
    ExecuteEffect(Execute(s, t2).0, t1);
  }

  lemma SwayedByCredit(t2: Transaction, t1: Transaction) returns (s: Accounts)
    requires !t1.txType.Unsupported? && !t2.txType.Unsupported? && TotalCost(t1) > 0
    requires t1.sender == Receiver(t2) != t2.sender && t2.value > 0
    ensures Execute(Execute(s, t2).0, t1).1.success != Execute(s, t1).1.success
  {
    hide Execute, TotalCost;
    var c, v := TotalCost(t1), t2.value;
    var held := if c < v then 0 else c - v;
    s := map[t1.sender := Account(0, held), t2.sender := Account(0, TotalCost(t2))];
    ExecuteEffect(s, t2);
    ExecuteEffect(s, t1);
    ExecuteEffect(Execute(s, t2).0, t1);
    SumWraps(held, v);
  }

  lemma SwayedByOwnCredit(t2: Transaction, t1: Transaction) returns (s: Accounts)
    requires !t1.txType.Unsupported? && !t2.txType.Unsupported? && TotalCost(t1) > 0
    requires t1.sender == t2.sender == Receiver(t2) && 0 < t2.value
    requires TotalCost(t2) + t2.value < M128 + TotalCost(t1)
    ensures Execute(Execute(s, t2).0, t1).1.success != Execute(s, t1).1.success
  {
    hide Execute, TotalCost;
    var c, v := TotalCost(t1), t2.value;
    var held := if v <= c then M128 - 1 else M128 - v + c - 1;
    s := map[t1.sender := Account(0, held)];
    ExecuteEffect(s, t2);
    ExecuteEffect(s, t1);
    ExecuteEffect(Execute(s, t2).0, t1);
    SumWraps(held, v);
  }

  /** With sway, some state shows it. */
  lemma Swayed(t2: Transaction, t1: Transaction) returns (s: Accounts)
    requires Sways(t2, t1)
    ensures Execute(Execute(s, t2).0, t1).1.success != Execute(s, t1).1.success
  {
    hide Execute, TotalCost;
    if t2.sender == Receiver(t2) {
      s := SwayedByOwnCredit(t2, t1);
    } else if t1.sender == t2.sender {
      s := SwayedByDebit(t2, t1);
    } else {
      s := SwayedByCredit(t2, t1);
    }
  }

  // ----- effects commute

  lemma AppliedTwice(account: Account, c: AccountChange, d: AccountChange)
    ensures Applied(Applied(account, c), d) == Applied(Applied(account, d), c)
  {
    hide ToI128, WrapI128, AsU128;
    var b: int, n: int := account.balance, account.nonce;
    DeltaIsModular(b, c.balanceDelta);
    DeltaIsModular(b, d.balanceDelta);
    DeltaIsModular((b + c.balanceDelta) % M128, d.balanceDelta);
    DeltaIsModular((b + d.balanceDelta) % M128, c.balanceDelta);
    ResiduesCommute(b, c.balanceDelta, d.balanceDelta, M128);
    ResiduesCommute(n, c.nonceDelta, d.nonceDelta, M64);
  }

  lemma ResiduesCommute(b: int, c: int, d: int, m: nat)
    requires m > 0
    ensures ((b + c) % m + d) % m == ((b + d) % m + c) % m
  {
    var x: int, y: int := b + c, b + d;
    DivisionOf(x, m);
    DivisionOf(y, m);
    var q: int := y / m - x / m;
    assert q * m == (y / m) * m - (x / m) * m;
    SameResidues(x % m + d, y % m + c, m, q);
  }

  lemma ChangesCommute(s: Accounts, c: map<Address, AccountChange>, d: map<Address, AccountChange>)
    ensures ApplyAll(ApplyAll(s, c), d) == ApplyAll(ApplyAll(s, d), c)
  {
    hide Applied;
    var cd, dc := ApplyAll(ApplyAll(s, c), d), ApplyAll(ApplyAll(s, d), c);
    forall a | a in cd ensures a in dc && cd[a] == dc[a] {
      if a in c && a in d { AppliedTwice(AccountOf(s, a), c[a], d[a]); }
    }
    forall a | a in dc ensures a in cd { }
  }

  /** Two transactions that do not sway each other commute, in state and in both results. */
  lemma Commute(s: Accounts, t1: Transaction, t2: Transaction)
    requires !Interfere(t1, t2)
    ensures Execute(Execute(s, t1).0, t2).0 == Execute(Execute(s, t2).0, t1).0
    ensures Execute(Execute(s, t1).0, t2).1 == Execute(s, t2).1
    ensures Execute(Execute(s, t2).0, t1).1 == Execute(s, t1).1
  {
    hide Execute, ApplyAll, Changes, Sways;
    Unswayed(s, t2, t1);
    Unswayed(s, t1, t2);
    ExecuteShape(s, t1);
    ExecuteShape(s, t2);
    ExecuteShape(Execute(s, t1).0, t2);
    ExecuteShape(Execute(s, t2).0, t1);
    ChangesCommute(s, Changes(t1), Changes(t2));
  }

  // ----- reordering a schedule

  lemma WithinParts(a: seq<nat>, b: seq<nat>, n: nat)
    ensures Within(a + b, n) <==> Within(a, n) && Within(b, n)
  {
    if Within(a + b, n) {
      forall k | 0 <= k < |a| ensures a[k] < n { assert (a + b)[k] == a[k]; }
      forall k | 0 <= k < |b| ensures b[k] < n { assert (a + b)[|a| + k] == b[k]; }
    }
  }

  lemma {:induction false} ResultsOf(s: Accounts, txs: seq<Transaction>, b: seq<nat>)
    requires Within(b, |txs|)
    ensures RunOrder(s, txs, b).1.Keys == Members(b)
    decreases |b|
  {
    hide Execute;
    if b == [] {
      assert Members(b) == {};
    } else {
      var front, last := b[..|b| - 1], b[|b| - 1];
      assert b == front + [last];
      ResultsOf(s, txs, front);
      assert Members(b) == Members(front) + {last};
    }
  }

  /** Running a and then b, with b's results over a's. */
  lemma {:induction false} RunInTwo(s: Accounts, txs: seq<Transaction>, a: seq<nat>, b: seq<nat>)
    requires Within(a, |txs|) && Within(b, |txs|)
    ensures Within(a + b, |txs|)
    ensures var (s1, ra) := RunOrder(s, txs, a);
            var (s2, rb) := RunOrder(s1, txs, b);
            RunOrder(s, txs, a + b) == (s2, ra + rb)
    decreases |b|
  {
    hide Execute, RunOrder;
    WithinParts(a, b, |txs|);
    var (s1, ra) := RunOrder(s, txs, a);
    if b == [] {
      RunNothing(s1, txs);
      assert a + b == a && ra + map[] == ra;
    } else {
      var front, last := b[..|b| - 1], b[|b| - 1];
      assert b == front + [last] && a + b == (a + front) + [last];
      RunInTwo(s, txs, a, front);
      RunOneMore(s, txs, a + front, last);
      RunOneMore(s1, txs, front, last);
      var (s2, rf) := RunOrder(s1, txs, front);
      var r := Execute(s2, txs[last]).1;
      assert ra + rf[last := r] == (ra + rf)[last := r];
    }
  }

  lemma SwapLast(s: Accounts, txs: seq<Transaction>, order: seq<nat>, j: nat, k: nat)
    requires NoneInterfere(txs) && Within(order, |txs|) && j < |txs| && k < |txs| && j != k
    ensures Within(order + [j] + [k], |txs|) && Within(order + [k] + [j], |txs|)
    ensures RunOrder(s, txs, order + [j] + [k]) == RunOrder(s, txs, order + [k] + [j])
  {
    hide Execute, Sways;
    RunOneMore(s, txs, order, j);
    RunOneMore(s, txs, order, k);
    RunOneMore(s, txs, order + [j], k);
    RunOneMore(s, txs, order + [k], j);
    var (s1, rs) := RunOrder(s, txs, order);
    assert !Interfere(txs[j], txs[k]);
    Commute(s1, txs[j], txs[k]);
    var rj, rk := Execute(s1, txs[j]).1, Execute(s1, txs[k]).1;
    assert rs[j := rj][k := rk] == rs[k := rk][j := rj];
  }

  lemma {:induction false} MoveToEnd(s: Accounts, txs: seq<Transaction>, k: nat, b: seq<nat>)
    requires NoneInterfere(txs) && Within(b, |txs|) && k < |txs| && k !in b
    ensures Within([k] + b, |txs|) && Within(b + [k], |txs|)
    ensures RunOrder(s, txs, [k] + b) == RunOrder(s, txs, b + [k])
    decreases |b|
  {
    hide Execute, NoneInterfere;
    assert Within([k], |txs|);
    WithinParts([k], b, |txs|);
    WithinParts(b, [k], |txs|);
    if b == [] {
      assert [k] + b == b + [k];
    } else {
      var c, j := b[..|b| - 1], b[|b| - 1];
      MoveToEnd(s, txs, k, c);
      assert b == c + [j] && [k] + b == ([k] + c) + [j] && b + [k] == c + [j] + [k];
      RunOneMore(s, txs, [k] + c, j);
      RunOneMore(s, txs, c + [k], j);
      SwapLast(s, txs, c, j, k);
    }
  }

  /** A schedule without its entry at p. */
  function WithoutAt(order: seq<nat>, p: nat): (rest: seq<nat>)
    requires p < |order|
    ensures |rest| == |order| - 1
    ensures forall k :: 0 <= k < |rest| ==> rest[k] == order[if k < p then k else k + 1]
  {
    order[..p] + order[p + 1..]
  }

  lemma StillScheduled(order: seq<nat>, n: nat, p: nat)
    requires p < |order| && Schedule(order, n) && order[p] == n - 1
    ensures Schedule(WithoutAt(order, p), n - 1)
  {
    var rest := WithoutAt(order, p);
    forall i | 0 <= i < n - 1 ensures i in rest {
      assert i in order;
      var m :| 0 <= m < |order| && order[m] == i;
      assert rest[if m < p then m else m - 1] == i;
    }
  }

  lemma RemoveLargest(order: seq<nat>, n: nat) returns (a: seq<nat>, b: seq<nat>)
    requires n > 0 && Schedule(order, n)
    ensures order == a + ([n - 1] + b) && Within(a, n) && Within(b, n) && n - 1 !in b
    ensures Schedule(a + b, n - 1)
  {
    assert n - 1 in order;
    var p :| 0 <= p < |order| && order[p] == n - 1;
    a, b := order[..p], order[p + 1..];
    StillScheduled(order, n, p);
  }

  /** If no two transactions interfere, every schedule of the first n ends like the sequential run, from every state, in
      state and in every single result. */
  lemma {:induction false} ScheduleIsSequential(s: Accounts, txs: seq<Transaction>, order: seq<nat>, n: nat)
    requires n <= |txs| && NoneInterfere(txs) && Schedule(order, n)
    ensures RunOrder(s, txs, order) == RunOrder(s, txs, InOrder(n))
    decreases n
  {
    hide Execute, NoneInterfere, RunOrder;
    if n == 0 {
      assert Members(order) == {};
      MembersSize(order);
      assert InOrder(0) == [];
    } else {
      var a, b := RemoveLargest(order, n);
      var k := n - 1;
      MoveToEnd(RunOrder(s, txs, a).0, txs, k, b);
      RunInTwo(s, txs, a, [k] + b);
      RunInTwo(s, txs, a, b + [k]);
      assert a + (b + [k]) == (a + b) + [k];
      ScheduleIsSequential(s, txs, a + b, k);
      RunOneMore(s, txs, a + b, k);
      RunOneMore(s, txs, InOrder(k), k);
      assert InOrder(n) == InOrder(k) + [k];
    }
  }

  // ----- and only then

  lemma {:induction false} OthersInOrder(n: nat, i: nat, j: nat) returns (rest: seq<nat>)
    ensures NoRepeats(rest) && Within(rest, n) && i !in rest && j !in rest
    ensures forall k :: 0 <= k < n && k != i && k != j ==> k in rest
  {
    if n == 0 {
      rest := [];
    } else {
      var front := OthersInOrder(n - 1, i, j);
      var k := n - 1;
      assert k !in front;
      SnocIsNew<nat>(front, k);
      rest := if k == i || k == j then front else front + [k];
    }
  }

  lemma StartingWith(n: nat, i: nat, j: nat, rest: seq<nat>)
    requires i < n && j < n && i != j
    requires NoRepeats(rest) && Within(rest, n) && i !in rest && j !in rest
    requires forall k :: 0 <= k < n && k != i && k != j ==> k in rest
    ensures Schedule([i, j] + rest, n)
  {
    var order := [i, j] + rest;
    forall k, l | 0 <= k < l < |order| ensures order[k] != order[l] {
      if k >= 2 { assert order[k] == rest[k - 2] && order[l] == rest[l - 2]; }
      else if l >= 2 { assert order[l] == rest[l - 2] && rest[l - 2] in rest; }
    }
    forall k | 0 <= k < n ensures k in order {
      if k == i { assert order[0] == k; } else if k == j { assert order[1] == k; } else { assert k in rest; }
    }
  }

  lemma RunPair(s: Accounts, txs: seq<Transaction>, i: nat, j: nat)
    requires i < |txs| && j < |txs| && i != j
    ensures Within([i, j], |txs|)
    ensures RunOrder(s, txs, [i, j]).1 == map[i := Execute(s, txs[i]).1, j := Execute(Execute(s, txs[i]).0, txs[j]).1]
  {
    hide Execute, RunOrder;
    RunNothing(s, txs);
    RunOneMore(s, txs, [], i);
    assert [] + [i] == [i] && [i] + [j] == [i, j];
    RunOneMore(s, txs, [i], j);
  }

  /** The result of the first transaction of a run depends on nothing after it; that of the second, on the first. */
  lemma FirstTwoResults(s: Accounts, txs: seq<Transaction>, i: nat, j: nat, rest: seq<nat>)
    requires i < |txs| && j < |txs| && i != j && Within(rest, |txs|) && i !in rest && j !in rest
    ensures Within([i, j] + rest, |txs|)
    ensures var rs := RunOrder(s, txs, [i, j] + rest).1;
            && i in rs && rs[i] == Execute(s, txs[i]).1
            && j in rs && rs[j] == Execute(Execute(s, txs[i]).0, txs[j]).1
  {
    hide Execute, RunOrder;
    RunPair(s, txs, i, j);
    RunInTwo(s, txs, [i, j], rest);
    ResultsOf(RunOrder(s, txs, [i, j]).0, txs, rest);
  }

  /** Where one transaction of a block sways another, two schedules end differently from some state. */
  lemma SwayShows(txs: seq<Transaction>, i: nat, j: nat) returns (s: Accounts, o1: seq<nat>, o2: seq<nat>)
    requires i < |txs| && j < |txs| && i != j && Sways(txs[j], txs[i])
    ensures Schedule(o1, |txs|) && Schedule(o2, |txs|)
    ensures RunOrder(s, txs, o1).1 != RunOrder(s, txs, o2).1
  {
    hide Execute, Sways;
    s := Swayed(txs[j], txs[i]);
    var rest := OthersInOrder(|txs|, i, j);
    o1, o2 := [i, j] + rest, [j, i] + rest;
    StartingWith(|txs|, i, j, rest);
    StartingWith(|txs|, j, i, rest);
    FirstTwoResults(s, txs, i, j, rest);
    FirstTwoResults(s, txs, j, i, rest);
    assert RunOrder(s, txs, o1).1[i] != RunOrder(s, txs, o2).1[i];
  }

  /** A block ends like its sequential run under every schedule from every state if and only if no transaction of it
      sways another. */
  lemma SequentialIff(txs: seq<Transaction>)
    ensures (forall s, order :: Schedule(order, |txs|) ==> RunOrder(s, txs, order) == RunOrder(s, txs, InOrder(|txs|)))
            <==> NoneInterfere(txs)
  {
    hide RunOrder, Sways;
    if NoneInterfere(txs) {
      forall s, order | Schedule(order, |txs|)
        ensures RunOrder(s, txs, order) == RunOrder(s, txs, InOrder(|txs|))
      {
        ScheduleIsSequential(s, txs, order, |txs|);
      }
    } else {
      var j, i :| 0 <= i < |txs| && 0 <= j < |txs| && i != j && Sways(txs[j], txs[i]);
      var s, o1, o2 := SwayShows(txs, i, j);
      assert || RunOrder(s, txs, o1) != RunOrder(s, txs, InOrder(|txs|))
             || RunOrder(s, txs, o2) != RunOrder(s, txs, InOrder(|txs|));
    }
  }

  /** No transaction touches another one's sender; receivers may be shared. */
  ghost predicate SendersApart(txs: seq<Transaction>) {
    forall i, j :: 0 <= i < |txs| && 0 <= j < |txs| && i != j ==> txs[i].sender !in Footprint(txs[j])
  }

  /** Then every schedule ends like the sequential run. Self-transfers and failing transfers are included. */
  lemma AnyOrderIsSequential(s: Accounts, txs: seq<Transaction>, order: seq<nat>)
    requires SendersApart(txs) && Schedule(order, |txs|)
    ensures RunOrder(s, txs, order) == RunOrder(s, txs, InOrder(|txs|))
  {
    forall i, j | 0 <= i < |txs| && 0 <= j < |txs| && i != j ensures !Sways(txs[i], txs[j]) {
      assert txs[j].sender !in Footprint(txs[i]);
    }
    ScheduleIsSequential(s, txs, order, |txs|);
  }

  /** Any two transfers of positive cost from one sender, the first to somebody else, have a state in which their order
      matters. */
  lemma SharedSenderOrderMatters(t1: Transaction, t2: Transaction)
    requires !t1.txType.Unsupported? && !t2.txType.Unsupported? && t1.sender == t2.sender != Receiver(t1)
    requires TotalCost(t1) > 0 && TotalCost(t2) > 0
    ensures exists s :: RunOrder(s, [t1, t2], [0, 1]) != RunOrder(s, [t1, t2], [1, 0])
  {
    hide Execute, TotalCost;
    var s := Swayed(t1, t2);
    FirstTwoResults(s, [t1, t2], 0, 1, []);
    FirstTwoResults(s, [t1, t2], 1, 0, []);
    assert [0, 1] + [] == [0, 1] && [1, 0] + [] == [1, 0];
    assert RunOrder(s, [t1, t2], [0, 1]).1[1] != RunOrder(s, [t1, t2], [1, 0]).1[1];
  }
}
