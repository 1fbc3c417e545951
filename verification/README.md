# Dividizky expense splitter in Dafny

Dividizky splits a group's shared expenses evenly. It then proposes who
should pay whom so that everybody ends up even. This project models the
engine in `src/lib/utils.ts` and proves properties about it. The engine has
these parts:

- **Splitting.** `calculateTotalExpense` sums the expenses. `calculatePerPersonExpense`
  divides that total by the headcount: the paying people plus
  `additionalPeople` anonymous non-payers named `Anónimo`.
  `calculateBalances` gives every roster entry its expense less the share.
  `calculateExpenses` chains these steps and settles the result.
- **Settlement.** `assignPayments` puts the negative balances (debtors) in a
  queue, most negative first. It puts the positive balances (creditors) in a
  second queue, largest first. Each round, the front debtor pays the front
  creditor `Math.min` of the debt and the credit. A party leaves its queue
  once its balance is exactly zero.
- **Helpers.** `maskAmount` formats typed money text as `$1,234.5`.
  `toCapitalize` upper-cases the first character of a name. `validateInput`
  and `validateTotalPeople` are the form's checks.

Modules:

| file | module | contents |
|---|---|---|
| `types.dfy` | `Types` | `Person`, `Balance`, `Payment` and `ExpenseResult`, plus reference sums |
| `sorting.dfy` | `Sorting` | the stable comparator sorts of `assignPayments` |
| `settlement.dfy` | `Settlement` | `assignPayments`, as a loop and as a recursive reference |
| `splitting.dfy` | `Splitting` | total, share, roster, balances and `calculateExpenses` |
| `format.dfy` | `Format` | `maskAmount` (with `split`, leading-zero stripping and thousands grouping) and `toCapitalize` |
| `validation.dfy` | `Validation` | `trim`, `validateInput` and `validateTotalPeople` |

Modelling choices:

- Amounts are exact `real`s. Division is therefore exact, and the `=== 0`
  tests at `src/lib/utils.ts:94-95` do what they evidently intend.
- `Array.prototype.sort` is stable. It is modelled as a stable insertion
  sort on a key: the balance for the ascending debtor sort, and the negated
  balance for the descending creditor sort.
- The loop of `assignPayments` is `Settlement.SettleLoop`. It is proved
  equal to the recursive `Settlement.Settle`. Every property of the payments
  is proved about that recursive reference. `calculateExpenses` has no
  side effects, so `Splitting.CalculateExpenses` is a function; it settles
  through `Settlement.Greedy`, the recursive reference applied to the
  sorted queues. `Settlement.AssignPayments` runs `Settlement.SettleLoop`
  on those same queues, so it returns the same payments. That link holds
  through its body; its contract does not state it.
- The code and the usual reading of `maskAmount` differ. The code
  destructures `cleanedValue.split('.')` into only its first two pieces, so
  any text from a second dot on is dropped. For example, `1.2.3` becomes
  `$1.2`. The model follows the code (`Format.MaskDropsAfterSecondDot`).
- `toUpperCase` is modelled for the Latin-1 range only. There, `ß` becomes
  `SS`, so `toCapitalize` keeps the length of every name whose first
  character is in Latin-1, except one that starts with `ß`.

## Model

| member | source | states |
|---|---|---|
| Splitting.TotalExpense | src/lib/utils.ts:50-52 | The left fold over the expenses equals the head-first sum of every `expense` field. That sum is 0 for an empty list. |
| Splitting.PerPersonExpense | src/lib/utils.ts:55-57 | The share times the headcount is exactly the total, for any non-zero headcount. |
| Splitting.Balances | src/lib/utils.ts:60-68 | There is exactly one balance per person. |
| Splitting.BalancesAt | src/lib/utils.ts:60-68 | Entry `i` keeps person `i`'s name, and its balance is that person's expense less the share. The map is pure and keeps the order. |
| Splitting.BalancesSum | src/lib/utils.ts:60-68 | The balances add up to the total expense less one share per entry. |
| Splitting.Anonymous | src/lib/utils.ts:107 | There are `k` entries, each `{name: 'Anónimo', expense: 0}`, and together they add nothing to the total. |
| Splitting.Roster | src/lib/utils.ts:107 | The roster has `people.length + additionalPeople` entries. Its total expense is that of the paying people. |
| Splitting.RosterEntries | src/lib/utils.ts:107 | The roster is the people in their order, followed by the anonymous entries. |
| Splitting.RosterBalances | src/lib/utils.ts:107-109 | There is one balance per roster entry. The first `people.length` balances keep the people's names and are their expenses less the share. Each of the last `additionalPeople` balances is `Anónimo` owing one share. |
| Splitting.ZeroSum | src/lib/utils.ts:103-109 | For a positive headcount, the roster's balances sum to exactly zero. |
| Splitting.BalancesCancel | src/lib/utils.ts:60-68 | When the share times the headcount is the total, the balances cancel out. |
| Splitting.CalculateExpenses | src/lib/utils.ts:102-119 | The result has the total of all expenses and the count `people.length + additionalPeople`. The share times that count is the total. There is one balance per roster entry, with the people first and then the anonymous entries owing a share each. The balances sum to zero. Every payment is positive and goes from an entry with a negative balance to one with a positive balance. There are fewer payments than people, and together they pay all the credit. |
| Sorting.Insert | src/lib/utils.ts:76 | Inserting into a sorted queue keeps it sorted and adds one entry. The new front is the inserted entry exactly when it goes first. |
| Sorting.Sort | src/lib/utils.ts:74-79 | The comparator sort returns a sorted sequence of the same length. |
| Sorting.SortPermutes | src/lib/utils.ts:74-79 | The sort is a permutation of its input, as a multiset. |
| Sorting.SortMembers | src/lib/utils.ts:74-79 | The sort holds exactly the input's entries and keeps their sum. |
| Sorting.SortIsStable | src/lib/utils.ts:74-79 | Entries with equal balances keep their input order, as the stable `Array.prototype.sort` guarantees. |
| Sorting.SortedFrontIsLeast | src/lib/utils.ts:76 | The front of a sorted queue has the least key of all its entries. |
| Settlement.Debtors | src/lib/utils.ts:74-75 | The filter keeps at most every entry. |
| Settlement.DebtorsMembers | src/lib/utils.ts:74-75 | The debtors are exactly the entries with a negative balance. |
| Settlement.Creditors | src/lib/utils.ts:77-78 | The filter keeps at most every entry. |
| Settlement.CreditorsMembers | src/lib/utils.ts:77-78 | The creditors are exactly the entries with a positive balance. |
| Settlement.DebtorsAppend | src/lib/utils.ts:74-75 | Filtering a concatenation concatenates the filtered pieces. With the one-entry cases, this keeps every negative entry in input order and as often as it occurs, so identical anonymous entries all stay. |
| Settlement.CreditorsAppend | src/lib/utils.ts:77-78 | Filtering a concatenation concatenates the filtered pieces. With the one-entry cases, this keeps every positive entry in input order and as often as it occurs. |
| Settlement.QueuesPartition | src/lib/utils.ts:74-79 | Zero balances are in neither queue. The two queues together hold at most every entry and carry the whole sum. |
| Settlement.Min | src/lib/utils.ts:87 | `Math.min` is at most both arguments and equal to one of them. |
| Settlement.Pay | src/lib/utils.ts:91-95 | Moving the front balance drops that entry exactly when the balance becomes 0. Otherwise the front keeps its name with the moved balance. The rest of the queue is unchanged, the sum moves by the amount, and the queue stays on its side of zero. |
| Settlement.PayKeepsNames | src/lib/utils.ts:91-95 | After a payment, every queued name still names an original entry on its side. |
| Settlement.Transfer | src/lib/utils.ts:84-89 | A payment goes from the front debtor to the front creditor. Its amount is no larger than the debt or the credit, equals one of them, and is positive. |
| Settlement.Advance | src/lib/utils.ts:91-95 | Each round removes at least one party, so the loop terminates. |
| Settlement.AdvanceKeeps | src/lib/utils.ts:91-95 | A round keeps the queues signed and never grows them. It moves the paid amount from the creditors' total to the debtors' total. |
| Settlement.InitialQueues | src/lib/utils.ts:72-79 | The starting queues are signed and named after original entries. The debtors are sorted ascending and the creditors descending by balance. Each queue is a permutation of its filter, with the filter's size and sum. |
| Settlement.DebtorFrontIsMinimum | src/lib/utils.ts:74-76 | The front debtor has the smallest balance of all entries. |
| Settlement.CreditorFrontIsMaximum | src/lib/utils.ts:77-79 | The front creditor has the largest balance of all entries. |
| Settlement.FirstStepIsExtreme | src/lib/utils.ts:74-89 | The first transfer goes from a smallest balance to a largest one, for `Math.min` of the two. |
| Settlement.Unsettled | src/lib/utils.ts:83 | The loop stops with at least one queue empty. |
| Settlement.SettlePaysDebtorsToCreditors | src/lib/utils.ts:83-96 | From signed queues, every payment is positive and goes from a name that owed to a name that was owed. The queues stay signed. |
| Settlement.SettleCount | src/lib/utils.ts:83-96 | There is a payment exactly when both queues are non-empty. From `n` queued parties there are at most `n - 1` payments. |
| Settlement.SettleConserves | src/lib/utils.ts:83-96 | The amount paid is what the creditors lose and what the debtors gain. |
| Settlement.GreedyPaysDebtorsToCreditors | src/lib/utils.ts:71-99 | Each payment is positive and goes from an entry with a negative balance to one with a positive balance. With distinct names, nobody pays themself. |
| Settlement.GreedyCount | src/lib/utils.ts:71-99 | There is a payment exactly when there are both a debtor and a creditor. There are at most `debtors.length + creditors.length - 1` payments, which is fewer than the number of entries. |
| Settlement.GreedyFirstPayment | src/lib/utils.ts:74-89 | The first payment is from a most-negative entry to a largest entry. |
| Settlement.GreedyTotal | src/lib/utils.ts:71-99 | The total paid is the smaller of total credit and total debt. When the balances sum to zero, both queues end empty and all credit is paid. |
| Settlement.SettleStep | src/lib/utils.ts:84-95 | One round moves one payment from the pending settlement to the payments made. |
| Settlement.SettleDone | src/lib/utils.ts:83 | Once a queue is empty, the payments made are the whole settlement. |
| Settlement.SettleLoop | src/lib/utils.ts:81-98 | The `while` loop returns exactly the recursive settlement of its starting queues, and its ghost result is exactly the queues the recursive reference stops with. |
| Settlement.AssignPayments | src/lib/utils.ts:71-99 | Every payment goes from a debtor to a creditor, is positive, and (with distinct names) goes between different people. There is a payment iff there are both a debtor and a creditor, and at most `debtors.length + creditors.length - 1` of them. The first is from a smallest balance to a largest. Payments total the smaller of credit and debt, and at least one of the loop's exit queues is empty. With zero-sum balances, both exit queues are empty and all credit is paid. |
| Settlement.FinalAmounts | src/lib/utils.ts:83-96 | When the loop stops, the amount paid is the smaller of total credit and total debt. Zero-sum balances leave both queues empty. |
| Settlement.NegativeSum | src/lib/utils.ts:75 | Debts sum below zero unless there are none. |
| Settlement.PositiveSum | src/lib/utils.ts:78 | Credits sum above zero unless there are none. |
| Format.Clean | src/lib/utils.ts:131 | The cleaned value is no longer than the input and holds only digits and dots. |
| Format.CleanMembers | src/lib/utils.ts:131 | A character survives cleaning exactly when it is in the input and is a digit or a dot. |
| Format.CleanKeepsClean | src/lib/utils.ts:131 | Cleaning an already-clean value changes nothing. |
| Format.CleanAppend | src/lib/utils.ts:131 | Cleaning a concatenation is the concatenation of the cleaned pieces. With the one-character cases, this makes the result exactly the digits and dots of the input, in order and with their multiplicity. |
| Format.Split | src/lib/utils.ts:133 | `split` returns at least one piece, and no piece holds the separator. |
| Format.JoinSplit | src/lib/utils.ts:133 | Gluing the pieces back with the separator gives the original string. |
| Format.SplitJoin | src/lib/utils.ts:133 | Separator-free pieces, glued and split again, come back unchanged. |
| Format.SplitPiece | src/lib/utils.ts:133 | A string without the separator splits into itself. |
| Format.SplitPrefix | src/lib/utils.ts:133 | A separator-free prefix before a separator is the first piece. |
| Format.StripLeadingZeros | src/lib/utils.ts:137 | The result is a suffix of the input, everything removed is `0`, and the result does not start with `0`. |
| Format.GroupIsThousands | src/lib/utils.ts:137 | The lookahead-regex comma insertion equals grouping the digits in threes from the right. |
| Format.GroupFromAppend | src/lib/utils.ts:137 | Appending three digits to a non-empty string appends a comma and those digits to its grouping. |
| Format.UngroupFrom | src/lib/utils.ts:137 | Removing the commas from the grouping gives the digits back. |
| Format.GroupLength | src/lib/utils.ts:137 | The grouping of `n` digits adds `(n - 1) / 3` commas. |
| Format.MaskAmount | src/lib/utils.ts:130-148 | The mask is `''` exactly when the input has no digit or dot. Otherwise it starts with `$`. |
| Format.MaskWithoutDot | src/lib/utils.ts:133-145 | Without a dot, the mask is `$` and the formatted integer part. |
| Format.MaskWithOneDot | src/lib/utils.ts:133-145 | With one dot, the text after the dot is kept verbatim after the formatted integer part. |
| Format.MaskDropsAfterSecondDot | src/lib/utils.ts:133-145 | With two or more dots, only the text between the first and second dot is kept. |
| Format.UnmaskInteger | src/lib/utils.ts:134-137 | The displayed integer part without its commas is the typed digits without leading zeros, or `0` for exactly `0`. |
| Format.UpperCase | src/lib/utils.ts:150 | Upper-casing gives one character, or two exactly for `ß`. |
| Format.UpperCaseIdempotent | src/lib/utils.ts:150 | Upper-casing an upper-cased character changes nothing. |
| Format.ToCapitalize | src/lib/utils.ts:150 | For a non-empty name, the tail is unchanged and the length is kept, unless the name starts with `ß`. An ASCII or accented Latin-1 lower-case first letter becomes its capital: `à` to `þ` move down by 32, `ÿ` becomes `Ÿ`, `µ` becomes `Μ` and `ß` becomes `SS`. A Latin-1 first character that has no upper-case form leaves the name unchanged. |
| Format.CapitalizeIdempotent | src/lib/utils.ts:150 | Capitalising twice is the same as capitalising once. |
| Validation.TrimStart | src/lib/utils.ts:155 | The result is a suffix, everything removed is whitespace, and the result does not start with whitespace. |
| Validation.TrimEnd | src/lib/utils.ts:155 | The result is a prefix, everything removed is whitespace, and the result does not end with whitespace. |
| Validation.TrimEmptyIffBlank | src/lib/utils.ts:155 | A name trims to `''` exactly when every character of it is whitespace. |
| Validation.ValidatePerson | src/lib/utils.ts:155 | One person passes exactly when the name has a non-whitespace character and the expense is not 0. |
| Validation.ValidateInput | src/lib/utils.ts:154-156 | The check holds iff every person has a name with a non-whitespace character and a non-zero expense. |
| Validation.ValidateTotalPeople | src/lib/utils.ts:158-160 | The check holds iff the headcount is at least 2. |
| Validation.TotalPeopleMatchesForm | src/components/Form.tsx:75-77 | The helper agrees with the form's inline `totalPeople < 2` check. A headcount that passes it is positive, which the engine's division needs. |

## Left out

- Floating point. Amounts are exact reals, so IEEE rounding is not modelled. For example, the balances of a real run can miss zero by a tiny residue, and a queue entry can then stay instead of leaving.
- A headcount of zero. The source divides by it and gets `NaN`; the model requires a positive headcount. Form.tsx:77 refuses any headcount below 2 before the engine runs.
- `additionalPeople` is a `nat`, because `Array(n)` throws for negative or fractional `n`.
- `formattedAmount` (src/lib/utils.ts:122-128) is a locale-formatting call into `Intl.NumberFormat`.
- `cn` (src/lib/utils.ts:4-6) wraps the `clsx` and `tailwind-merge` libraries.
- `generateWhatsAppMessage` and `getFormSchema` are imported by the components but are not part of this model. They are not defined in src/lib/utils.ts.
- The React components are rendering and form-state glue. This covers Form.tsx, Result.tsx, Home.tsx, Footer.tsx, the `app/` metadata files and `ui/moneyInput.tsx`. Home.tsx calls `calculateExpenses` without `additionalPeople`; the model takes both arguments.
- Format.UpperCase: only the Latin-1 range is mapped. Every character above U+00FF is left as it is: Latin Extended letters such as `ł`, other scripts (Greek, Cyrillic and so on), and characters whose capital is several letters, such as `ŉ` or `ﬁ`.
- Format.ToCapitalize: a name whose first character is above U+00FF is returned unchanged by the model. JavaScript upper-cases many of them (`łukasz` becomes `Łukasz`), and some change the length (`ﬁ` becomes `FI`). The length clause therefore holds only for names that start in Latin-1. On the empty string, `str[0]` is `undefined` and the source throws a TypeError; the model excludes that call with `requires |s| > 0`, although Result.tsx calls the function on every displayed name.
- Strings are sequences of code points, not UTF-16 code units. `str[0]` of a name that starts with an astral character would be half a surrogate pair in the source.
- Settlement.GreedyPaysDebtorsToCreditors: "nobody pays themself" is stated only for distinct names. The source does not require names to be unique, and two people with the same name can appear as payer and payee.
- The loop's exit queues are returned only as the ghost result `unsettled` of `Settlement.AssignPayments`, taken from `Settlement.SettleLoop`. The source does not return them.
