/** The transaction records: the kind of a ledger entry, the stored entry,
    its ID hook and the request body the HTTP layer binds. */
module TransactionModel {
  import opened Common

  datatype TransactionType = Deposit | Withdraw | Transfer

  /** One row of the `transactions` table. `createdAt` is the store's
      creation stamp (gorm's autoCreateTime), `priceAt` the IDR price at the
      time of the entry, or 0 when it could not be determined. */
  datatype Transaction = Transaction(
    id: Uuid,
    userId: Uuid,
    kind: TransactionType,
    currency: string,
    amount: real,
    priceAt: real,
    createdAt: nat)

  /** `Transaction.BeforeCreate`: same rule as the wallet hook. */
  function BeforeCreate(t: Transaction, generated: Uuid): (r: Transaction)
    requires generated != NilId
    ensures r.id != NilId
    ensures t.id == NilId ==> r.id == generated
    ensures t.id != NilId ==> r == t
    ensures r == t.(id := r.id)
  {
    if t.id == NilId then t.(id := generated) else t
  }

  /** The JSON body of a deposit or withdrawal request. */
  datatype TransactionRequest = TransactionRequest(currency: string, amount: real)

  /** gin's binding rules on the request: `currency` is `required` (not the
      empty string) and `amount` is `required,gt=0`. */
  predicate Binds(req: TransactionRequest): (bound: bool)
    ensures bound <==> |req.currency| > 0 && req.amount > 0.0
  {
    req.currency != "" && req.amount != 0.0 && req.amount > 0.0
  }
}
