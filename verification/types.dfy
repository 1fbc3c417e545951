/** The value types the expense splitter passes between its stages.
    Amounts are exact reals, so the per-person share and every balance
    are computed without rounding. */
module Types {

  /** One paying participant as entered in the form. */
  datatype Person = Person(name: string, expense: real)

  /** A participant's net position: positive is owed money, negative owes money. */
  datatype Balance = Balance(name: string, balance: real)

  /** One directed transfer from a debtor to a creditor. */
  datatype Payment = Payment(from: string, to: string, amount: real)

  /** Everything one split produces. */
  datatype ExpenseResult = ExpenseResult(
    totalExpense: real,
    numberOfPeople: int,
    perPersonExpense: real,
    balances: seq<Balance>,
    payments: seq<Payment>)

  /** Sum of the `expense` fields, head first. */
  function SumExpenses(people: seq<Person>): real
  {
    if |people| == 0 then 0.0 else people[0].expense + SumExpenses(people[1..])
  }

  /** Sum of the `balance` fields, head first. */
  function SumBalances(bs: seq<Balance>): real
  {
    if |bs| == 0 then 0.0 else bs[0].balance + SumBalances(bs[1..])
  }

  /** Sum of the `amount` fields, head first. */
  function SumAmounts(ps: seq<Payment>): real
  {
    if |ps| == 0 then 0.0 else ps[0].amount + SumAmounts(ps[1..])
  }

  lemma {:induction false} SumExpensesAppend(a: seq<Person>, b: seq<Person>)
    ensures SumExpenses(a + b) == SumExpenses(a) + SumExpenses(b)
  {
    if |a| == 0 {
      assert a + b == b;
    } else {
      assert (a + b)[1..] == a[1..] + b;
      SumExpensesAppend(a[1..], b);
    }
  }

  lemma {:induction false} SumBalancesAppend(a: seq<Balance>, b: seq<Balance>)
    ensures SumBalances(a + b) == SumBalances(a) + SumBalances(b)
  {
    if |a| == 0 {
      assert a + b == b;
    } else {
      assert (a + b)[1..] == a[1..] + b;
      SumBalancesAppend(a[1..], b);
    }
  }

  lemma {:induction false} SumAmountsAppend(a: seq<Payment>, b: seq<Payment>)
    ensures SumAmounts(a + b) == SumAmounts(a) + SumAmounts(b)
  {
    if |a| == 0 {
      assert a + b == b;
    } else {
      assert (a + b)[1..] == a[1..] + b;
      SumAmountsAppend(a[1..], b);
    }
  }
}
