/** Shared vocabulary of the wallet service: optional values, results,
    identifiers and the error taxonomy the services report. */
module Common {

  datatype Option<+T> = None | Some(value: T)

  /** A Go `(value, error)` pair: exactly one of the two is meaningful. */
  datatype Result<+T> = Ok(value: T) | Err(error: Error)

  /** A UUID is a 128-bit number; the nil UUID is 0. */
  type Uuid = nat

  const NilId: Uuid := 0

  /** What the authentication middleware leaves in the request context: the
      caller's user ID, or the error it reports. */
  datatype Auth = Authenticated(userId: Uuid) | Unauthenticated(message: string)

  /** The SQL statement (or scope operation) during which a storage error arose. */
  datatype DbOp =
    | SelectWallet
    | InsertWallet
    | UpdateWallet
    | InsertTransaction
    | SelectTransaction
    | CountTransactions
    | CommitScope

  /** Why a request to the price feed failed. */
  datatype FetchFailure = Transport | BadStatus(code: int) | BadBody

  datatype Error =
    | InvalidAmount                                 // "amount must be greater than 0"
    | WalletNotFound                                // "wallet not found"
    | InsufficientBalance                           // "insufficient balance"
    | UnsupportedCurrency(symbol: string)           // "unsupported currency: %s"
    | PriceNotFound(symbol: string)                 // "price not found for currency: %s"
    | FetchFailed(reason: FetchFailure)             // transport, status or decode failure
    | PriceLookupFailed(currency: string, cause: Error) // "failed to get price for %s: %w"
    | StorageFailure(op: DbOp)                      // any error reported by the database
    | RecordNotFound                                // gorm.ErrRecordNotFound
    | CacheUnavailable                              // an error reported by Redis
}
