/** assignPayments (src/lib/utils.ts:71-99): greedy settlement of a list of
    balances. Debtors (negative balances, most negative first) pay creditors
    (positive balances, largest first); each transfer is the smaller of the
    front debtor's debt and the front creditor's credit, and a party leaves
    its queue when its balance reaches exactly zero. Balances are immutable
    values here, so the caller's list is never changed, as the source's copy
    at line 72 ensures. */
module Settlement {
  import opened Types
  import opened Sorting

  /** `filter(b => b.balance < 0)`. */
  function Debtors(bs: seq<Balance>): (ds: seq<Balance>)
    ensures |ds| <= |bs|
  {
    if |bs| == 0 then []
    else (if bs[0].balance < 0.0 then [bs[0]] else []) + Debtors(bs[1..])
  }

  /** `filter(b => b.balance > 0)`. */
  function Creditors(bs: seq<Balance>): (cs: seq<Balance>)
    ensures |cs| <= |bs|
  {
    if |bs| == 0 then []
    else (if bs[0].balance > 0.0 then [bs[0]] else []) + Creditors(bs[1..])
  }

  /** The debtors are exactly the entries that owe. */
  lemma {:induction false} DebtorsMembers(bs: seq<Balance>)
    ensures forall y :: y in Debtors(bs) <==> y in bs && y.balance < 0.0
  {
    if |bs| > 0 {
      DebtorsMembers(bs[1..]);
      assert bs == [bs[0]] + bs[1..];
    }
  }

  /** The creditors are exactly the entries that are owed. */
  lemma {:induction false} CreditorsMembers(bs: seq<Balance>)
    ensures forall y :: y in Creditors(bs) <==> y in bs && y.balance > 0.0
  {
    if |bs| > 0 {
      CreditorsMembers(bs[1..]);
      assert bs == [bs[0]] + bs[1..];
    }
  }

  /** The filters work piece by piece: together with the one-entry cases of
      the definitions, this keeps every owing (owed) entry, in input order
      and as often as it occurs. */
  lemma {:induction false} DebtorsAppend(a: seq<Balance>, b: seq<Balance>)
    ensures Debtors(a + b) == Debtors(a) + Debtors(b)
  {
    if |a| == 0 {
      assert a + b == b;
    } else {
      assert (a + b)[1..] == a[1..] + b;
      DebtorsAppend(a[1..], b);
    }
  }

  lemma {:induction false} CreditorsAppend(a: seq<Balance>, b: seq<Balance>)
    ensures Creditors(a + b) == Creditors(a) + Creditors(b)
  {
    if |a| == 0 {
      assert a + b == b;
    } else {
      assert (a + b)[1..] == a[1..] + b;
      CreditorsAppend(a[1..], b);
    }
  }

  /** Zero balances belong to neither queue, so the queues hold at most every
      entry and together carry the whole sum. */
  lemma {:induction false} QueuesPartition(bs: seq<Balance>)
    ensures |Debtors(bs)| + |Creditors(bs)| <= |bs|
    ensures SumBalances(Debtors(bs)) + SumBalances(Creditors(bs)) == SumBalances(bs)
  {
    if |bs| > 0 {
      var d := if bs[0].balance < 0.0 then [bs[0]] else [];
      var c := if bs[0].balance > 0.0 then [bs[0]] else [];
      SumBalancesAppend(d, Debtors(bs[1..]));
      SumBalancesAppend(c, Creditors(bs[1..]));
      QueuesPartition(bs[1..]);
    }
  }

  /** `name` belongs to an entry of `bs` that owes money. */
  predicate Owes(bs: seq<Balance>, name: string)
  {
    exists j :: 0 <= j < |bs| && bs[j].name == name && bs[j].balance < 0.0
  }

  /** `name` belongs to an entry of `bs` that is owed money. */
  predicate IsOwed(bs: seq<Balance>, name: string)
  {
    exists j :: 0 <= j < |bs| && bs[j].name == name && bs[j].balance > 0.0
  }

  predicate DistinctNames(bs: seq<Balance>)
  {
    forall i, j :: 0 <= i < |bs| && 0 <= j < |bs| && i != j ==> bs[i].name != bs[j].name
  }

  predicate IsMinimum(bs: seq<Balance>, i: int)
  {
    0 <= i < |bs| && forall j :: 0 <= j < |bs| ==> bs[i].balance <= bs[j].balance
  }

  predicate IsMaximum(bs: seq<Balance>, i: int)
  {
    0 <= i < |bs| && forall j :: 0 <= j < |bs| ==> bs[j].balance <= bs[i].balance
  }

  /** `Math.min`. */
  function Min(a: real, b: real): (m: real)
    ensures m <= a && m <= b
    ensures m == a || m == b
  {
    if a < b then a else b
  }

  /** The two working queues of the loop. */
  datatype Queues = Queues(debtors: seq<Balance>, creditors: seq<Balance>)

  /** Every entry of `s` owes money. */
  predicate AllOwe(s: seq<Balance>)
  {
    |s| == 0 || (s[0].balance < 0.0 && AllOwe(s[1..]))
  }

  /** Every entry of `s` is owed money. */
  predicate AllOwed(s: seq<Balance>)
  {
    |s| == 0 || (s[0].balance > 0.0 && AllOwed(s[1..]))
  }

  /** Every queued debtor owes and every queued creditor is owed. */
  predicate Signed(q: Queues)
  {
    AllOwe(q.debtors) && AllOwed(q.creditors)
  }

  /** Every entry of `s` carries the name of an entry of `bs` that owes. */
  predicate NamedDebtors(bs: seq<Balance>, s: seq<Balance>)
  {
    |s| == 0 || (Owes(bs, s[0].name) && NamedDebtors(bs, s[1..]))
  }

  /** Every entry of `s` carries the name of an entry of `bs` that is owed. */
  predicate NamedCreditors(bs: seq<Balance>, s: seq<Balance>)
  {
    |s| == 0 || (IsOwed(bs, s[0].name) && NamedCreditors(bs, s[1..]))
  }

  /** Every queued party is named after an original entry on its side. */
  predicate QueuedFrom(bs: seq<Balance>, q: Queues)
  {
    NamedDebtors(bs, q.debtors) && NamedCreditors(bs, q.creditors)
  }

  lemma {:induction false} AllOweIndex(s: seq<Balance>)
    ensures AllOwe(s) <==> forall i :: 0 <= i < |s| ==> s[i].balance < 0.0
  {
    if |s| > 0 {
      AllOweIndex(s[1..]);
      assert forall i :: 1 <= i < |s| ==> s[i] == s[1..][i - 1];
    }
  }

  lemma {:induction false} AllOwedIndex(s: seq<Balance>)
    ensures AllOwed(s) <==> forall i :: 0 <= i < |s| ==> s[i].balance > 0.0
  {
    if |s| > 0 {
      AllOwedIndex(s[1..]);
      assert forall i :: 1 <= i < |s| ==> s[i] == s[1..][i - 1];
    }
  }

  lemma {:induction false} NamedDebtorsIndex(bs: seq<Balance>, s: seq<Balance>)
    ensures NamedDebtors(bs, s) <==> forall i :: 0 <= i < |s| ==> Owes(bs, s[i].name)
  {
    if |s| > 0 {
      NamedDebtorsIndex(bs, s[1..]);
      assert forall i :: 1 <= i < |s| ==> s[i] == s[1..][i - 1];
    }
  }

  lemma {:induction false} NamedCreditorsIndex(bs: seq<Balance>, s: seq<Balance>)
    ensures NamedCreditors(bs, s) <==> forall i :: 0 <= i < |s| ==> IsOwed(bs, s[i].name)
  {
    if |s| > 0 {
      NamedCreditorsIndex(bs, s[1..]);
      assert forall i :: 1 <= i < |s| ==> s[i] == s[1..][i - 1];
    }
  }

  /** Moves the front entry's balance by `delta` and drops it once it is exactly zero
      (`debtor.balance += amount; if (debtor.balance === 0) debtors.shift()`). */
  function Pay(queue: seq<Balance>, delta: real): (r: seq<Balance>)
    requires |queue| > 0
    ensures |r| == |queue| - 1 <==> queue[0].balance + delta == 0.0
    ensures |r| == |queue| - 1 || |r| == |queue|
    ensures |r| == |queue| ==> r[0] == Balance(queue[0].name, queue[0].balance + delta)
    ensures r[|r| - (|queue| - 1)..] == queue[1..]
    ensures SumBalances(r) == SumBalances(queue) + delta
    ensures AllOwe(queue) && queue[0].balance + delta <= 0.0 ==> AllOwe(r)
    ensures AllOwed(queue) && queue[0].balance + delta >= 0.0 ==> AllOwed(r)
  {
    var front := queue[0];
    var b := front.balance + delta;
    if b == 0.0 then queue[1..]
    else
      var r := [Balance(front.name, b)] + queue[1..];
      assert r[1..] == queue[1..];
      r
  }

  /** Paying from the front keeps every queued name. */
  lemma {:induction false} PayKeepsNames(bs: seq<Balance>, queue: seq<Balance>, delta: real)
    requires |queue| > 0
    ensures NamedDebtors(bs, queue) ==> NamedDebtors(bs, Pay(queue, delta))
    ensures NamedCreditors(bs, queue) ==> NamedCreditors(bs, Pay(queue, delta))
  {
    var r := Pay(queue, delta);
    if |r| == |queue| {
      assert r[1..] == queue[1..];
    } else {
      assert r == queue[1..];
    }
  }

  /** The payment one iteration emits: the front debtor pays the front
      creditor the smaller of its debt and the creditor's credit. */
  function Transfer(q: Queues): (p: Payment)
    requires |q.debtors| > 0 && |q.creditors| > 0
    ensures p.from == q.debtors[0].name && p.to == q.creditors[0].name
    ensures p.amount <= -q.debtors[0].balance && p.amount <= q.creditors[0].balance
    ensures p.amount == -q.debtors[0].balance || p.amount == q.creditors[0].balance
    ensures Signed(q) ==> p.amount > 0.0
  {
    Payment(q.debtors[0].name, q.creditors[0].name, Min(-q.debtors[0].balance, q.creditors[0].balance))
  }

  /** The queues after one iteration: both fronts move by the transferred
      amount and at least one of them, now exactly zero, leaves its queue. */
  function Advance(q: Queues): (next: Queues)
    requires |q.debtors| > 0 && |q.creditors| > 0
    ensures |next.debtors| + |next.creditors| < |q.debtors| + |q.creditors|
  {
    var amount := Transfer(q).amount;
    Queues(Pay(q.debtors, amount), Pay(q.creditors, -amount))
  }

  /** One iteration keeps the queues signed, never grows them, and moves
      the transferred amount from the creditors' total to the debtors'. */
  lemma {:induction false} AdvanceKeeps(q: Queues)
    requires |q.debtors| > 0 && |q.creditors| > 0
    ensures Signed(q) ==> Signed(Advance(q))
    ensures |Advance(q).debtors| <= |q.debtors| && |Advance(q).creditors| <= |q.creditors|
    ensures SumBalances(Advance(q).debtors) == SumBalances(q.debtors) + Transfer(q).amount
    ensures SumBalances(Advance(q).creditors) == SumBalances(q.creditors) - Transfer(q).amount
  {
  }

  /** A payment that is positive and goes from a debtor of `bs` to a creditor of `bs`. */
  predicate DebtorPaysCreditor(bs: seq<Balance>, p: Payment)
  {
    p.amount > 0.0 && Owes(bs, p.from) && IsOwed(bs, p.to)
  }

  predicate AllDebtorsPayCreditors(bs: seq<Balance>, ps: seq<Payment>)
  {
    |ps| == 0 || (DebtorPaysCreditor(bs, ps[0]) && AllDebtorsPayCreditors(bs, ps[1..]))
  }

  lemma {:induction false} AllDebtorsPayCreditorsIndex(bs: seq<Balance>, ps: seq<Payment>)
    ensures AllDebtorsPayCreditors(bs, ps) <==> forall k :: 0 <= k < |ps| ==> DebtorPaysCreditor(bs, ps[k])
  {
    if |ps| > 0 {
      AllDebtorsPayCreditorsIndex(bs, ps[1..]);
      assert forall k :: 1 <= k < |ps| ==> ps[k] == ps[1..][k - 1];
    }
  }

  lemma {:induction false} AllDebtorsPayCreditorsSnoc(bs: seq<Balance>, ps: seq<Payment>, p: Payment)
    requires AllDebtorsPayCreditors(bs, ps) && DebtorPaysCreditor(bs, p)
    ensures AllDebtorsPayCreditors(bs, ps + [p])
  {
    if |ps| > 0 {
      assert (ps + [p])[1..] == ps[1..] + [p];
      AllDebtorsPayCreditorsSnoc(bs, ps[1..], p);
    }
  }

  /** The queues as the loop starts: debtors ascending, creditors descending. */
  function InitialQueues(bs: seq<Balance>): (q: Queues)
    ensures Signed(q) && QueuedFrom(bs, q)
    ensures |q.debtors| == |Debtors(bs)| && |q.creditors| == |Creditors(bs)|
    ensures SumBalances(q.debtors) == SumBalances(Debtors(bs))
    ensures SumBalances(q.creditors) == SumBalances(Creditors(bs))
    ensures Sorted(Ascending, q.debtors) && Sorted(Descending, q.creditors)
    ensures multiset(q.debtors) == multiset(Debtors(bs))
    ensures multiset(q.creditors) == multiset(Creditors(bs))
  {
    DebtorQueue(bs);
    SortPermutes(Ascending, Debtors(bs));
    SortPermutes(Descending, Creditors(bs));
    CreditorQueue(bs);
    SortMembers(Ascending, Debtors(bs));
    SortMembers(Descending, Creditors(bs));
    Queues(Sort(Ascending, Debtors(bs)), Sort(Descending, Creditors(bs)))
  }

  lemma {:induction false} DebtorQueue(bs: seq<Balance>)
    ensures AllOwe(Sort(Ascending, Debtors(bs))) && NamedDebtors(bs, Sort(Ascending, Debtors(bs)))
  {
    var ds := Sort(Ascending, Debtors(bs));
    SortMembers(Ascending, Debtors(bs));
    DebtorsMembers(bs);
    forall i | 0 <= i < |ds|
      ensures ds[i].balance < 0.0 && Owes(bs, ds[i].name)
    {
      assert ds[i] in Debtors(bs);
    }
    AllOweIndex(ds);
    NamedDebtorsIndex(bs, ds);
  }

  lemma {:induction false} CreditorQueue(bs: seq<Balance>)
    ensures AllOwed(Sort(Descending, Creditors(bs))) && NamedCreditors(bs, Sort(Descending, Creditors(bs)))
  {
    var cs := Sort(Descending, Creditors(bs));
    SortMembers(Descending, Creditors(bs));
    CreditorsMembers(bs);
    forall i | 0 <= i < |cs|
      ensures cs[i].balance > 0.0 && IsOwed(bs, cs[i].name)
    {
      assert cs[i] in Creditors(bs);
    }
    AllOwedIndex(cs);
    NamedCreditorsIndex(bs, cs);
  }

  /** The front of the ascending debtor queue has the smallest balance of all. */
  lemma {:induction false} DebtorFrontIsMinimum(bs: seq<Balance>)
    requires |Debtors(bs)| > 0
    ensures forall k :: 0 <= k < |bs| ==> Sort(Ascending, Debtors(bs))[0].balance <= bs[k].balance
  {
    var ds := Sort(Ascending, Debtors(bs));
    SortMembers(Ascending, Debtors(bs));
    DebtorsMembers(bs);
    SortedFrontIsLeast(Ascending, ds);
    assert ds[0] in Debtors(bs);
    forall k | 0 <= k < |bs| && bs[k].balance < 0.0
      ensures ds[0].balance <= bs[k].balance
    {
      assert bs[k] in ds;
    }
  }

  /** The front of the descending creditor queue has the largest balance of all. */
  lemma {:induction false} CreditorFrontIsMaximum(bs: seq<Balance>)
    requires |Creditors(bs)| > 0
    ensures forall k :: 0 <= k < |bs| ==> bs[k].balance <= Sort(Descending, Creditors(bs))[0].balance
  {
    var cs := Sort(Descending, Creditors(bs));
    SortMembers(Descending, Creditors(bs));
    CreditorsMembers(bs);
    SortedFrontIsLeast(Descending, cs);
    assert cs[0] in Creditors(bs);
    forall k | 0 <= k < |bs| && bs[k].balance > 0.0
      ensures bs[k].balance <= cs[0].balance
    {
      assert bs[k] in cs;
    }
  }

  /** The first transfer goes from an entry with the smallest balance to one
      with the largest. */
  lemma {:induction false} FirstStepIsExtreme(bs: seq<Balance>)
    requires |Debtors(bs)| > 0 && |Creditors(bs)| > 0
    ensures exists i, j :: (IsMinimum(bs, i) && IsMaximum(bs, j) &&
      Transfer(InitialQueues(bs)) == Payment(bs[i].name, bs[j].name, Min(-bs[i].balance, bs[j].balance)))
  {
    var q := InitialQueues(bs);
    var d := Sort(Ascending, Debtors(bs))[0];
    var c := Sort(Descending, Creditors(bs))[0];
    assert Transfer(q) == Payment(d.name, c.name, Min(-d.balance, c.balance)) by {
      assert q.debtors[0] == d && q.creditors[0] == c;
    }
    assert d in bs && c in bs by {
      SortMembers(Ascending, Debtors(bs));
      SortMembers(Descending, Creditors(bs));
      DebtorsMembers(bs);
      CreditorsMembers(bs);
      assert d in Debtors(bs) && c in Creditors(bs);
    }
    var i :| 0 <= i < |bs| && bs[i] == d;
    var j :| 0 <= j < |bs| && bs[j] == c;
    assert IsMinimum(bs, i) by {
      DebtorFrontIsMinimum(bs);
    }
    assert IsMaximum(bs, j) by {
      CreditorFrontIsMaximum(bs);
    }
  }

  /** The payments the loop emits from queues `q` until one queue is empty. */
  function Settle(q: Queues): seq<Payment>
    decreases |q.debtors| + |q.creditors|
  {
    if |q.debtors| > 0 && |q.creditors| > 0 then [Transfer(q)] + Settle(Advance(q)) else []
  }

  /** The queues the loop stops with. */
  function Unsettled(q: Queues): (u: Queues)
    ensures |u.debtors| == 0 || |u.creditors| == 0
    decreases |q.debtors| + |q.creditors|
  {
    if |q.debtors| > 0 && |q.creditors| > 0 then Unsettled(Advance(q)) else q
  }

  /** Every payment of a run is positive and goes from a debtor of `bs` to a
      creditor of `bs`; the queues stay signed throughout. */
  lemma {:induction false} SettlePaysDebtorsToCreditors(bs: seq<Balance>, q: Queues)
    requires Signed(q) && QueuedFrom(bs, q)
    ensures AllDebtorsPayCreditors(bs, Settle(q))
    ensures Signed(Unsettled(q))
    decreases |q.debtors| + |q.creditors|
  {
    if |q.debtors| > 0 && |q.creditors| > 0 {
      var p, next := Transfer(q), Advance(q);
      AdvanceKeeps(q);
      PayKeepsNames(bs, q.debtors, p.amount);
      PayKeepsNames(bs, q.creditors, -p.amount);
      SettlePaysDebtorsToCreditors(bs, next);
      assert ([p] + Settle(next))[1..] == Settle(next);
    }
  }

  /** Each step settles at least one party, so a run from queues holding `n`
      parties makes at most `n - 1` payments. */
  lemma {:induction false} SettleCount(q: Queues)
    ensures |Settle(q)| == 0 <==> |q.debtors| == 0 || |q.creditors| == 0
    ensures |Settle(q)| == 0 || |Settle(q)| < |q.debtors| + |q.creditors|
    decreases |q.debtors| + |q.creditors|
  {
    if |q.debtors| > 0 && |q.creditors| > 0 {
      var next := Advance(q);
      SettleCount(next);
      assert |Settle(q)| == 1 + |Settle(next)|;
    }
  }

  /** What a run pays is what the creditors lose and what the debtors gain. */
  lemma {:induction false} SettleConserves(q: Queues)
    ensures SumAmounts(Settle(q)) == SumBalances(q.creditors) - SumBalances(Unsettled(q).creditors)
    ensures SumAmounts(Settle(q)) == SumBalances(Unsettled(q).debtors) - SumBalances(q.debtors)
    decreases |q.debtors| + |q.creditors|
  {
    if |q.debtors| > 0 && |q.creditors| > 0 {
      var p, next := Transfer(q), Advance(q);
      AdvanceKeeps(q);
      SettleConserves(next);
      SumAmountsAppend([p], Settle(next));
    }
  }

  /** The payments assignPayments returns for `bs`. */
  function Greedy(bs: seq<Balance>): seq<Payment>
  {
    Settle(InitialQueues(bs))
  }

  /** The queues assignPayments's loop stops with for `bs`. */
  function GreedyLeftover(bs: seq<Balance>): Queues
  {
    Unsettled(InitialQueues(bs))
  }

  /** Each payment is positive and goes from a debtor of `bs` to a creditor
      of `bs`; with distinct names nobody pays themself. */
  lemma {:induction false} GreedyPaysDebtorsToCreditors(bs: seq<Balance>)
    ensures forall k :: 0 <= k < |Greedy(bs)| ==> DebtorPaysCreditor(bs, Greedy(bs)[k])
    ensures DistinctNames(bs) ==> forall k :: 0 <= k < |Greedy(bs)| ==> Greedy(bs)[k].from != Greedy(bs)[k].to
  {
    var ps := Greedy(bs);
    SettlePaysDebtorsToCreditors(bs, InitialQueues(bs));
    AllDebtorsPayCreditorsIndex(bs, ps);
    if DistinctNames(bs) {
      forall k | 0 <= k < |ps|
        ensures ps[k].from != ps[k].to
      {
        assert DebtorPaysCreditor(bs, ps[k]);
        var i :| 0 <= i < |bs| && bs[i].name == ps[k].from && bs[i].balance < 0.0;
        var j :| 0 <= j < |bs| && bs[j].name == ps[k].to && bs[j].balance > 0.0;
        assert i != j;
      }
    }
  }

  /** There is a payment exactly when there is a debtor and a creditor, and
      a run over `n` non-zero balances makes at most `n - 1` payments. */
  lemma {:induction false} GreedyCount(bs: seq<Balance>)
    ensures |Greedy(bs)| == 0 <==> |Debtors(bs)| == 0 || |Creditors(bs)| == 0
    ensures |Greedy(bs)| == 0 || |Greedy(bs)| < |Debtors(bs)| + |Creditors(bs)|
    ensures |Greedy(bs)| == 0 || |Greedy(bs)| < |bs|
  {
    SettleCount(InitialQueues(bs));
    QueuesPartition(bs);
  }

  /** The first payment goes from a smallest balance to a largest one. */
  lemma {:induction false} GreedyFirstPayment(bs: seq<Balance>)
    ensures |Greedy(bs)| > 0 ==> exists i, j :: (IsMinimum(bs, i) && IsMaximum(bs, j) &&
      Greedy(bs)[0] == Payment(bs[i].name, bs[j].name, Min(-bs[i].balance, bs[j].balance)))
  {
    if |Greedy(bs)| > 0 {
      GreedyCount(bs);
      assert Greedy(bs)[0] == Transfer(InitialQueues(bs));
      FirstStepIsExtreme(bs);
    }
  }

  /** The total paid is the smaller of total credit and total debt; when the
      balances sum to zero both queues end empty and all credit is paid. */
  lemma {:induction false} GreedyTotal(bs: seq<Balance>)
    ensures SumAmounts(Greedy(bs)) == Min(SumBalances(Creditors(bs)), -SumBalances(Debtors(bs)))
    ensures |GreedyLeftover(bs).debtors| == 0 || |GreedyLeftover(bs).creditors| == 0
    ensures SumBalances(bs) == 0.0 ==>
      GreedyLeftover(bs) == Queues([], []) && SumAmounts(Greedy(bs)) == SumBalances(Creditors(bs))
  {
    var q := InitialQueues(bs);
    SettlePaysDebtorsToCreditors(bs, q);
    SettleConserves(q);
    FinalAmounts(bs, Unsettled(q), SumAmounts(Settle(q)));
  }

  /** `payments` followed by the settlement still due from `q` is the whole
      settlement of `q0`. */
  predicate PaidSoFar(payments: seq<Payment>, q: Queues, q0: Queues)
  {
    payments + Settle(q) == Settle(q0)
  }

  /** One turn of the loop moves one payment from the pending rest to the
      payments made so far. */
  lemma {:induction false} SettleStep(payments: seq<Payment>, q: Queues, q0: Queues)
    requires |q.debtors| > 0 && |q.creditors| > 0
    requires PaidSoFar(payments, q, q0)
    ensures PaidSoFar(payments + [Transfer(q)], Advance(q), q0)
  {
    assert Settle(q) == [Transfer(q)] + Settle(Advance(q));
    MoveFront(payments, Transfer(q), Settle(Advance(q)), Settle(q0));
  }

  /** Moving the front of the pending part to the done part keeps the whole. */
  lemma MoveFront<T>(done: seq<T>, x: T, rest: seq<T>, whole: seq<T>)
    requires done + ([x] + rest) == whole
    ensures (done + [x]) + rest == whole
  {
    assert (done + [x]) + rest == done + ([x] + rest);
  }

  /** Once a queue is empty nothing more is due. */
  lemma SettleDone(payments: seq<Payment>, q: Queues, q0: Queues)
    requires |q.debtors| == 0 || |q.creditors| == 0
    requires PaidSoFar(payments, q, q0)
    ensures payments == Settle(q0)
  {
    assert payments + [] == payments;
  }

  /** The `while (debtors.length && creditors.length)` loop: pays from the
      fronts until one queue is empty and returns the payments in order,
      together with the queues it stops with (a ghost result: the source
      never returns them). */
  method SettleLoop(q0: Queues) returns (payments: seq<Payment>, ghost rest: Queues)
    ensures payments == Settle(q0)
    ensures rest == Unsettled(q0)
  {
    var q := q0;
    payments := [];
    assert [] + Settle(q0) == Settle(q0);
    while |q.debtors| > 0 && |q.creditors| > 0
      invariant PaidSoFar(payments, q, q0)
      invariant Unsettled(q) == Unsettled(q0)
      decreases |q.debtors| + |q.creditors|
    {
      var payment := Transfer(q);
      var next := Advance(q);
      SettleStep(payments, q, q0);
      payments := payments + [payment];
      q := next;
    }
    SettleDone(payments, q, q0);
    rest := q;
  }

  /** assignPayments: the greedy settlement of `balances`. The ghost result
      `unsettled` is what is left in the two queues when the loop stops. */
  method AssignPayments(balances: seq<Balance>) returns (payments: seq<Payment>, ghost unsettled: Queues)
    ensures forall k :: 0 <= k < |payments| ==> DebtorPaysCreditor(balances, payments[k])
    ensures DistinctNames(balances) ==> forall k :: 0 <= k < |payments| ==> payments[k].from != payments[k].to
    ensures |payments| == 0 <==> |Debtors(balances)| == 0 || |Creditors(balances)| == 0
    ensures |payments| == 0 || |payments| < |Debtors(balances)| + |Creditors(balances)|
    ensures |payments| == 0 || |payments| < |balances|
    ensures |payments| > 0 ==> exists i, j :: (IsMinimum(balances, i) && IsMaximum(balances, j) &&
      payments[0] == Payment(balances[i].name, balances[j].name, Min(-balances[i].balance, balances[j].balance)))
    ensures SumAmounts(payments) == Min(SumBalances(Creditors(balances)), -SumBalances(Debtors(balances)))
    ensures |unsettled.debtors| == 0 || |unsettled.creditors| == 0
    ensures SumBalances(balances) == 0.0 ==>
      unsettled == Queues([], []) && SumAmounts(payments) == SumBalances(Creditors(balances))
  {
    payments, unsettled := SettleLoop(InitialQueues(balances));
    GreedyPaysDebtorsToCreditors(balances);
    GreedyCount(balances);
    GreedyFirstPayment(balances);
    GreedyTotal(balances);
  }

  /** Once one queue is empty, the amount paid is the smaller of the total
      credit and the total debt; with zero-sum balances both queues are empty. */
  lemma {:induction false} FinalAmounts(bs: seq<Balance>, q: Queues, paid: real)
    requires Signed(q)
    requires |q.debtors| == 0 || |q.creditors| == 0
    requires paid == SumBalances(Creditors(bs)) - SumBalances(q.creditors)
    requires paid == SumBalances(q.debtors) - SumBalances(Debtors(bs))
    ensures paid == Min(SumBalances(Creditors(bs)), -SumBalances(Debtors(bs)))
    ensures SumBalances(bs) == 0.0 ==> q == Queues([], []) && paid == SumBalances(Creditors(bs))
  {
    QueuesPartition(bs);
    NegativeSum(q.debtors);
    PositiveSum(q.creditors);
  }

  /** Debts sum below zero unless there are none. */
  lemma {:induction false} NegativeSum(s: seq<Balance>)
    requires AllOwe(s)
    ensures |s| > 0 ==> SumBalances(s) < 0.0
    ensures |s| == 0 ==> SumBalances(s) == 0.0
  {
    if |s| > 0 {
      NegativeSum(s[1..]);
    }
  }

  /** Credits sum above zero unless there are none. */
  lemma {:induction false} PositiveSum(s: seq<Balance>)
    requires AllOwed(s)
    ensures |s| > 0 ==> SumBalances(s) > 0.0
    ensures |s| == 0 ==> SumBalances(s) == 0.0
  {
    if |s| > 0 {
      PositiveSum(s[1..]);
    }
  }
}
