/** The wallet records: a stored wallet, one valued portfolio line and the
    portfolio response, plus the ID hook gorm runs before inserting a wallet. */
module WalletModel {
  import opened Common

  /** One row of the `wallets` table: the balance of one user in one
      currency. The gorm timestamp and the preloaded user are not modelled. */
  datatype Wallet = Wallet(id: Uuid, userId: Uuid, currency: string, balance: real)

  /** One line of a portfolio: a non-empty balance, its unit price in IDR and
      its value in IDR. */
  datatype WalletWithPrice = WalletWithPrice(currency: string, balance: real, priceIdr: real, valueIdr: real)

  datatype PortfolioResponse = PortfolioResponse(assets: seq<WalletWithPrice>, totalValueIdr: real)

  /** The balance a wallet starts with when the service creates it. */
  const InitialBalance: real := 0.0

  /** A wallet the service is about to insert for a user and a currency:
      no ID yet and an empty balance. */
  function NewWallet(userId: Uuid, currency: string): (w: Wallet)
    ensures w.id == NilId && w.balance == 0.0
    ensures w.userId == userId && w.currency == currency
  {
    Wallet(NilId, userId, currency, InitialBalance)
  }

  /** `Wallet.BeforeCreate`: a nil ID is replaced by the freshly generated
      one; a set ID is left alone. The Go hook always returns nil, so the
      model returns only the updated record. `generated` is the value
      `uuid.New()` produced, which is never the nil UUID. */
  function BeforeCreate(w: Wallet, generated: Uuid): (r: Wallet)
    requires generated != NilId
    ensures r.id != NilId
    ensures w.id == NilId ==> r.id == generated
    ensures w.id != NilId ==> r == w
    ensures r == w.(id := r.id)
  {
    if w.id == NilId then w.(id := generated) else w
  }
}
