/** The two sorts of assignPayments (src/lib/utils.ts:76 and :79).
    `Array.prototype.sort` is stable, so `sort((a, b) => a.balance - b.balance)`
    orders by balance ascending and keeps entries with equal balances in
    their original order; `sort((a, b) => b.balance - a.balance)` is the same
    with the balance negated. Both are modelled by one stable insertion sort
    over a key that depends on the direction. */
module Sorting {
  import opened Types

  datatype Order = Ascending | Descending

  /** The number a comparator of the given direction orders by. */
  function Key(order: Order, b: Balance): real
  {
    match order
    case Ascending => b.balance
    case Descending => -b.balance
  }

  /** Each entry's key is at most the next one's. */
  predicate Sorted(order: Order, s: seq<Balance>)
  {
    |s| < 2 || (Key(order, s[0]) <= Key(order, s[1]) && Sorted(order, s[1..]))
  }

  /** The front of a sorted sequence has the least key of all its entries. */
  lemma {:induction false} SortedFrontIsLeast(order: Order, s: seq<Balance>)
    requires Sorted(order, s) && |s| > 0
    ensures forall y :: y in s ==> Key(order, s[0]) <= Key(order, y)
  {
    if |s| > 1 {
      SortedFrontIsLeast(order, s[1..]);
      assert forall y :: y in s ==> y == s[0] || y in s[1..];
    }
  }

  /** Places `x` before the first entry whose key is not smaller than its own. */
  function Insert(order: Order, x: Balance, s: seq<Balance>): (r: seq<Balance>)
    ensures |r| == |s| + 1
    ensures r[0] == if |s| == 0 || Key(order, x) <= Key(order, s[0]) then x else s[0]
    ensures Sorted(order, s) ==> Sorted(order, r)
  {
    if |s| == 0 || Key(order, x) <= Key(order, s[0]) then
      var r := [x] + s;
      assert r[1..] == s;
      r
    else
      var t := Insert(order, x, s[1..]);
      var r := [s[0]] + t;
      assert r[1..] == t;
      r
  }

  /** A stable sort of `s` in the given direction. */
  function Sort(order: Order, s: seq<Balance>): (r: seq<Balance>)
    ensures |r| == |s|
    ensures Sorted(order, r)
  {
    if |s| == 0 then [] else Insert(order, s[0], Sort(order, s[1..]))
  }

  lemma {:induction false} InsertPermutes(order: Order, x: Balance, s: seq<Balance>)
    ensures multiset(Insert(order, x, s)) == multiset(s) + multiset{x}
  {
    if |s| > 0 && Key(order, x) > Key(order, s[0]) {
      InsertPermutes(order, x, s[1..]);
      ConsMultiset(s);
    }
  }

  /** The sort is a permutation of its input. */
  lemma {:induction false} SortPermutes(order: Order, s: seq<Balance>)
    ensures multiset(Sort(order, s)) == multiset(s)
  {
    if |s| > 0 {
      SortPermutes(order, s[1..]);
      InsertPermutes(order, s[0], Sort(order, s[1..]));
      ConsMultiset(s);
    }
  }

  lemma ConsMultiset<T>(s: seq<T>)
    requires |s| > 0
    ensures multiset(s) == multiset(s[1..]) + multiset{s[0]}
  {
    assert s == [s[0]] + s[1..];
  }

  lemma {:induction false} InsertMembers(order: Order, x: Balance, s: seq<Balance>)
    ensures forall y :: y in Insert(order, x, s) <==> y == x || y in s
    ensures SumBalances(Insert(order, x, s)) == x.balance + SumBalances(s)
  {
    if |s| > 0 && Key(order, x) > Key(order, s[0]) {
      InsertMembers(order, x, s[1..]);
      assert s == [s[0]] + s[1..];
    }
  }

  /** The sort holds exactly the entries of its input and keeps their sum. */
  lemma {:induction false} SortMembers(order: Order, s: seq<Balance>)
    ensures forall y :: y in Sort(order, s) <==> y in s
    ensures SumBalances(Sort(order, s)) == SumBalances(s)
  {
    if |s| > 0 {
      SortMembers(order, s[1..]);
      InsertMembers(order, s[0], Sort(order, s[1..]));
      assert s == [s[0]] + s[1..];
    }
  }

  /** The entries of `s` whose key is `k`, in their order in `s`. */
  function WithKey(order: Order, s: seq<Balance>, k: real): seq<Balance>
  {
    if |s| == 0 then []
    else (if Key(order, s[0]) == k then [s[0]] else []) + WithKey(order, s[1..], k)
  }

  lemma {:induction false} InsertWithKey(order: Order, x: Balance, s: seq<Balance>, k: real)
    ensures WithKey(order, Insert(order, x, s), k)
         == (if Key(order, x) == k then [x] else []) + WithKey(order, s, k)
  {
    if |s| == 0 || Key(order, x) <= Key(order, s[0]) {
      assert Insert(order, x, s) == [x] + s;
      WithKeyCons(order, x, s, k);
    } else {
      var t := Insert(order, x, s[1..]);
      assert Insert(order, x, s) == [s[0]] + t;
      WithKeyCons(order, s[0], t, k);
      InsertWithKey(order, x, s[1..], k);
      assert s == [s[0]] + s[1..];
      WithKeyCons(order, s[0], s[1..], k);
      SwapOneEmpty(if Key(order, s[0]) == k then [s[0]] else [],
                   if Key(order, x) == k then [x] else [],
                   WithKey(order, s[1..], k));
    }
  }

  lemma WithKeyCons(order: Order, a: Balance, t: seq<Balance>, k: real)
    ensures WithKey(order, [a] + t, k) == (if Key(order, a) == k then [a] else []) + WithKey(order, t, k)
  {
    assert ([a] + t)[1..] == t;
  }

  /** Two pieces of which one is empty can be swapped. */
  lemma SwapOneEmpty<T>(a: seq<T>, b: seq<T>, c: seq<T>)
    requires a == [] || b == []
    ensures a + (b + c) == b + (a + c)
  {
    if a == [] {
      assert a + (b + c) == b + c;
      assert a + c == c;
    } else {
      assert b + c == c;
      assert b + (a + c) == a + c;
    }
  }

  /** Stability: among entries with equal keys the sort keeps the input order. */
  lemma {:induction false} SortIsStable(order: Order, s: seq<Balance>, k: real)
    ensures WithKey(order, Sort(order, s), k) == WithKey(order, s, k)
  {
    if |s| > 0 {
      InsertWithKey(order, s[0], Sort(order, s[1..]), k);
      SortIsStable(order, s[1..], k);
    }
  }
}
