/**
 * The records the ledger works with (the `transactions`, `transaction_items`
 * and `accounts` rows of the data store) and the sign convention that ties an
 * entry's type to its effect on a balance.
 */
module Domain {
  import opened Wrappers

  datatype TxType = Income | Expense | Transfer

  datatype Currency = USD | COP

  type AccountId = string
  type CategoryId = string

  /** Entry ids are issued by the store; the model issues naturals. */
  type EntryId = nat

  /** The literal a type is stored and exported as. */
  function TypeName(t: TxType): string {
    match t
    case Income => "income"
    case Expense => "expense"
    case Transfer => "transfer"
  }

  /** The literal a currency is stored and exported as. */
  function CurrencyCode(c: Currency): string {
    match c
    case USD => "USD"
    case COP => "COP"
  }

  /** One line of a receipt attached to an entry. */
  datatype Item = Item(name: string, quantity: real, unitPrice: real)

  /** The fields of a ledger entry as they are written to the store (a `TransactionInsert`). */
  datatype Draft = Draft(
    userId: string,
    date: string,
    description: string,
    txType: TxType,
    amount: real,
    currency: Currency,
    accountId: AccountId,
    categoryId: Option<CategoryId>,
    budgetId: Option<string>,
    merchant: Option<string>,
    notes: Option<string>)

  /** A persisted entry: its id, its fields and its items. */
  datatype Entry = Entry(id: EntryId, data: Draft, items: seq<Item>)

  /** `type === 'income' ? 1 : -1` times the amount: what an entry adds to its balance. */
  function Delta(t: TxType, amount: real): (d: real)
    ensures t == Income ==> d == amount
    ensures t != Income ==> d == -amount
  {
    (if t == Income then 1.0 else -1.0) * amount
  }

  /** The type used to undo an entry's effect: `type === 'income' ? 'expense' : 'income'`. */
  function ReverseType(t: TxType): (r: TxType)
    ensures forall amount: real :: Delta(r, amount) == -Delta(t, amount)
  {
    if t == Income then Expense else Income
  }

  /** A pair of per-currency balances (`balance_usd`, `balance_cop`). */
  datatype Balance = Balance(usd: real, cop: real) {
    function Get(c: Currency): real {
      if c == USD then usd else cop
    }

    /** The balance with `delta` added to the field for `c`; the other field is untouched. */
    function Add(c: Currency, delta: real): (b: Balance)
      ensures b.Get(c) == Get(c) + delta
      ensures forall c' | c' != c :: b.Get(c') == Get(c')
    {
      if c == USD then Balance(usd + delta, cop) else Balance(usd, cop + delta)
    }
  }
}
