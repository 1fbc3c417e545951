/** The splitting pipeline of src/lib/utils.ts: total, per-person share,
    roster expansion with anonymous non-payers, and the balance of every
    roster entry. */
module Splitting {
  import opened Types
  import opened Settlement

  /** The sentinel name given to every additional non-paying participant. */
  const AnonymousName: string := "Anónimo"

  /** calculateTotalExpense: `reduce((total, p) => total + p.expense, 0)`,
      a left fold that adds the last person's expense to the total of the
      ones before. */
  function TotalExpense(people: seq<Person>): (total: real)
    ensures total == SumExpenses(people)
  {
    if |people| == 0 then 0.0
    else
      var init := people[..|people| - 1];
      var last := people[|people| - 1];
      assert people == init + [last];
      SumExpensesAppend(init, [last]);
      TotalExpense(init) + last.expense
  }

  /** `share` is an equal split of `total` among `n` people. */
  predicate SplitsEvenly(share: real, n: int, total: real)
  {
    share * (n as real) == total
  }

  /** calculatePerPersonExpense: the equal share of `total` among `n` people. */
  function PerPersonExpense(total: real, n: int): (share: real)
    requires n != 0
    ensures SplitsEvenly(share, n, total)
  {
    total / (n as real)
  }

  /** calculateBalances: `people.map(p => {name: p.name, balance: p.expense - share})`. */
  function Balances(people: seq<Person>, share: real): (bs: seq<Balance>)
    ensures |bs| == |people|
  {
    if |people| == 0 then []
    else [Balance(people[0].name, people[0].expense - share)] + Balances(people[1..], share)
  }

  /** Each balance keeps its person's name and is that person's expense less the share. */
  lemma {:induction false} BalancesAt(people: seq<Person>, share: real)
    ensures forall i :: 0 <= i < |people| ==>
      Balances(people, share)[i] == Balance(people[i].name, people[i].expense - share)
  {
    if |people| > 0 {
      BalancesAt(people[1..], share);
      var bs := Balances(people, share);
      assert bs[1..] == Balances(people[1..], share);
      forall i | 1 <= i < |people|
        ensures bs[i] == Balance(people[i].name, people[i].expense - share)
      {
        assert bs[i] == bs[1..][i - 1];
      }
    }
  }

  /** The balances of a roster add up to its total expense less one share per entry. */
  lemma {:induction false} BalancesSum(people: seq<Person>, share: real)
    ensures SumBalances(Balances(people, share)) == SumExpenses(people) - (|people| as real) * share
  {
    if |people| > 0 {
      var bs := Balances(people, share);
      assert bs[1..] == Balances(people[1..], share);
      BalancesSum(people[1..], share);
    }
  }

  /** `Array(k).fill({name: 'Anónimo', expense: 0})`. */
  function Anonymous(k: nat): (extra: seq<Person>)
    ensures |extra| == k
    ensures forall i :: 0 <= i < k ==> extra[i] == Person(AnonymousName, 0.0)
    ensures SumExpenses(extra) == 0.0
  {
    if k == 0 then [] else [Person(AnonymousName, 0.0)] + Anonymous(k - 1)
  }

  /** `[...people, ...Array(additionalPeople).fill(...)]`: the paying people
      in order, then the anonymous non-payers. */
  function Roster(people: seq<Person>, additionalPeople: nat): (all: seq<Person>)
    ensures |all| == |people| + additionalPeople
    ensures SumExpenses(all) == SumExpenses(people)
  {
    var extra := Anonymous(additionalPeople);
    SumExpensesAppend(people, extra);
    people + extra
  }

  /** The roster starts with the paying people in order and ends with anonymous
      entries that paid nothing. */
  lemma RosterEntries(people: seq<Person>, additionalPeople: nat)
    ensures forall i :: 0 <= i < |people| ==> Roster(people, additionalPeople)[i] == people[i]
    ensures forall i :: |people| <= i < |people| + additionalPeople ==>
      Roster(people, additionalPeople)[i] == Person(AnonymousName, 0.0)
  {
  }

  /** One balance per roster entry: the paying people first, each with their
      expense less the share, then the anonymous entries, each owing one share. */
  predicate ListsBalances(people: seq<Person>, additionalPeople: nat, share: real, balances: seq<Balance>)
  {
    && |balances| == |people| + additionalPeople
    && (forall i :: 0 <= i < |people| ==> balances[i] == Balance(people[i].name, people[i].expense - share))
    && (forall i :: |people| <= i < |balances| ==> balances[i] == Balance(AnonymousName, -share))
  }

  /** The balance of every roster entry: the paying people's expenses less
      the share, then the anonymous entries, each owing one share. */
  lemma RosterBalances(people: seq<Person>, additionalPeople: nat, share: real)
    ensures ListsBalances(people, additionalPeople, share, Balances(Roster(people, additionalPeople), share))
  {
    var all := Roster(people, additionalPeople);
    RosterEntries(people, additionalPeople);
    BalancesAt(all, share);
  }

  /** Every balance of a split is the entry's expense less the same share
      and the share times the headcount is the total, so the balances sum
      to exactly zero. */
  lemma {:induction false} ZeroSum(people: seq<Person>, additionalPeople: nat)
    requires |people| + additionalPeople > 0
    ensures SumBalances(Balances(Roster(people, additionalPeople),
              PerPersonExpense(TotalExpense(people), |people| + additionalPeople))) == 0.0
  {
    var n := |people| + additionalPeople;
    var all := Roster(people, additionalPeople);
    var share := PerPersonExpense(TotalExpense(people), n);
    BalancesCancel(all, n, share);
  }

  /** Balances whose share times the headcount is the total cancel out. */
  lemma {:induction false} BalancesCancel(all: seq<Person>, n: int, share: real)
    requires |all| == n
    requires SplitsEvenly(share, n, SumExpenses(all))
    ensures SumBalances(Balances(all, share)) == 0.0
  {
    BalancesSum(all, share);
  }

  /** A split whose payments settle it: the balances cancel out, every payment
      is positive and goes from an entry that owes to an entry that is owed,
      there are fewer payments than people, and together the payments cover
      everything the creditors are owed. */
  predicate Settles(r: ExpenseResult)
  {
    && SumBalances(r.balances) == 0.0
    && (forall k :: 0 <= k < |r.payments| ==> DebtorPaysCreditor(r.balances, r.payments[k]))
    && |r.payments| < r.numberOfPeople
    && SumAmounts(r.payments) == SumBalances(Creditors(r.balances))
  }

  /** calculateExpenses: the whole split of `people` plus `additionalPeople`
      anonymous non-payers, settled by the greedy matcher of assignPayments
      (`Settlement.Greedy`, which `Settlement.AssignPayments` computes). */
  function CalculateExpenses(people: seq<Person>, additionalPeople: nat): (r: ExpenseResult)
    requires |people| + additionalPeople > 0
    ensures r.totalExpense == SumExpenses(people)
    ensures r.numberOfPeople == |people| + additionalPeople
    ensures SplitsEvenly(r.perPersonExpense, r.numberOfPeople, r.totalExpense)
    ensures ListsBalances(people, additionalPeople, r.perPersonExpense, r.balances)
    ensures Settles(r)
  {
    var totalExpense := TotalExpense(people);
    var numberOfPeople := |people| + additionalPeople;
    var perPersonExpense := PerPersonExpense(totalExpense, numberOfPeople);
    var balances := Balances(Roster(people, additionalPeople), perPersonExpense);
    ZeroSum(people, additionalPeople);
    RosterBalances(people, additionalPeople, perPersonExpense);
    GreedyPaysDebtorsToCreditors(balances);
    GreedyCount(balances);
    GreedyTotal(balances);
    ExpenseResult(totalExpense, numberOfPeople, perPersonExpense, balances, Greedy(balances))
  }
}
