# Wallet service: a Dafny model

This project models the core of a small crypto wallet backend written in Go. Users hold
one wallet per currency (BTC, ETH, USDT, IDR). The model covers:

- **The ledger engine** (`WalletService`). Deposit and Withdraw open a database scope.
  They find or create the wallet, write the new balance, look up the unit price in IDR,
  append a priced transaction record and commit. Every error before the commit rolls
  the scope back.
- **The portfolio valuation** (`GetPortfolio`). It skips zero-balance wallets, values
  every other wallet at balance × price, and totals the values.
- **The price service** (`CoinGeckoService`). It is a cache-aside layer under one fixed
  Redis key (`crypto_prices`) with a configurable TTL, in front of the CoinGecko
  `simple/price` endpoint. It resolves a symbol to a unit price: IDR always costs 1,
  BTC/ETH/USDT go through the table, and any other symbol is unsupported.
- **The two repositories**, over the wallet table and the append-only transaction log.
- **The HTTP handlers** for wallets and transactions. These cover authentication,
  binding, the currency whitelist, pagination and the status codes.

## How the model is organised

Each Go file of the core has its own module.

- **Value entities are datatypes.** This covers `Wallet`, `Transaction`, `WalletWithPrice`,
  `PortfolioResponse` and `TransactionRequest`.
- **Stateful objects are classes.** `WalletRepo.WalletRepository` holds `rows`.
  `TransactionRepo.TransactionRepository` holds `log` and `clock`.
  `CoinGecko.CoinGeckoService` holds `redis`. `LedgerService.WalletService` holds the
  three above plus the scope events. Their methods work step by step, as the Go
  methods do.
- **Each method is proved equal to a pure function.** Those functions live in the
  modules `Ledger`, `Portfolio`, `CoinGecko`, `WalletRepo` and `TransactionRepo`. What
  the functions guarantee is proved there, as lemmas.

### Modelling choices

- Money and prices are exact reals.
- UUIDs are naturals, and 0 stands for `uuid.Nil`.
- Every database call takes a fault flag for "the database returned an error", and
  so do Redis reads (`Ledger.Faults.readCache`).
- The HTTP price feed is an oracle from URL to outcome.
- The clock is a parameter, in seconds.

### The rollback flag

The service's rollback is only as good as the wiring. Both repositories are built over
the plain `*gorm.DB` (`cmd/main.go:32-33`), not over the transaction the service opens.
As written, a rollback therefore undoes none of their writes.

`Ledger.Wiring.repositoriesInScope` selects the behaviour:

- **false**: the program as written.
- **true**: the evidently intended wiring, in which a rollback restores the snapshot
  taken at `Begin`.

Every ledger lemma states which wiring it needs.

### The invariant

`Ledger.Sound` is the ledger invariant. It says:

- wallet ids are unique, and there is at most one wallet per (user, currency);
- every balance is non-negative;
- every balance equals the recorded deposits minus the recorded withdrawals for its
  (user, currency);
- the log is chronological and its ids are unique.

## Model

| member | source | states |
|---|---|---|
| Text.ToUpper | internal/services/coingecko_service.go:62 | The result has the input's length, and every character is the upper-case form `UpperChar` gives for the character at the same position. |
| Text.UpperChar | internal/services/coingecko_service.go:62 | ASCII lower-case letters become their capitals, dotless i becomes I and long s becomes S, and every other ASCII character is kept. |
| Text.UpperCharInverse | internal/services/coingecko_service.go:62 | The only characters that upper-case to an ASCII capital are the capital itself and its ASCII lower case, plus dotless i for I and long s for S, in both directions. |
| Text.IsIdrInAnyCase | internal/services/coingecko_service.go:62-65 | A symbol upper-cases to "IDR" exactly when it is three letters: i, I or dotless i; then d or D; then r or R. Both directions hold. |
| Text.SplitJoin | internal/services/coingecko_service.go:99 | Joining ids that contain no comma with "," can be split back into exactly those ids, so the URL's id list is unambiguous. |
| WalletModel.NewWallet | internal/services/wallet_service.go:43-47 | A wallet created on demand belongs to the user and currency asked for, has balance 0 and has no id yet. |
| WalletModel.BeforeCreate | internal/models/wallet.go:20-25 | A nil id is replaced by the generated UUID, a set id is kept, and nothing else changes. |
| TransactionModel.BeforeCreate | internal/models/transaction.go:30-35 | A nil id is replaced by the generated UUID, a set id is kept, and nothing else changes. |
| TransactionModel.Binds | internal/models/transaction.go:38-41 | A request binds exactly when its currency is non-empty and its amount is strictly positive, in both directions. |
| WalletRepo.FirstByKey | internal/repository/wallet_repo.go:33 | The result is None exactly when no row has the key. Otherwise it is the matching row with the least id, as gorm's `First` orders by primary key. |
| WalletRepo.FirstByKeyIsTheWallet | internal/repository/wallet_repo.go:31-41 | With one wallet per key, looking a stored wallet's key up returns that wallet. |
| WalletRepo.FindByUserIDAndCurrency | internal/repository/wallet_repo.go:31-41 | A database error is an error. A missing row is `(nil, nil)`, both directions. A found row carries the key and is the first by key. |
| WalletRepo.FindAllByUserID | internal/repository/wallet_repo.go:43-50 | An error exactly on a database fault. Otherwise the result holds exactly the user's wallets. |
| WalletRepo.Insert | internal/repository/wallet_repo.go:27-29 | The row gets its generated id. The insert fails on a fault or a duplicate id and then leaves the table alone; on success it appends exactly that row. |
| WalletRepo.Save | internal/repository/wallet_repo.go:52-54 | gorm `Save`: a nil id inserts; a set id replaces the row with that id, or inserts when there is none; a fault changes nothing. |
| WalletRepo.SetBalance | internal/repository/wallet_repo.go:56-60 | Keeps the table's length. Only the rows with that id take the new balance; every other field and row is unchanged. |
| WalletRepo.Replace | internal/repository/wallet_repo.go:52-54 | gorm `Save` of a record whose id is stored: keeps the table's length, puts the record in place of every row with its id, and leaves every other row unchanged. |
| WalletRepo.InsertKeepsPrimaryKey | internal/repository/wallet_repo.go:27-29 | Create keeps wallet ids unique. |
| WalletRepo.SaveKeepsPrimaryKey | internal/repository/wallet_repo.go:52-54 | Update keeps wallet ids unique. |
| WalletRepo.SetBalanceKeepsKeys | internal/repository/wallet_repo.go:56-60 | A balance update keeps ids unique and keeps one wallet per (user, currency). |
| WalletRepo.WalletRepository.Create | internal/repository/wallet_repo.go:27-29 | Changes the table exactly as `Insert` says and keeps ids unique. |
| WalletRepo.WalletRepository.Update | internal/repository/wallet_repo.go:52-54 | Changes the table exactly as `Save` says and keeps ids unique. |
| WalletRepo.WalletRepository.UpdateBalance | internal/repository/wallet_repo.go:56-60 | A fault is an error and changes nothing. Otherwise the table becomes `SetBalance` of the old one. |
| TransactionRepo.Append | internal/repository/transaction_repo.go:25-27 | The record gets its generated id and the store's clock for `created_at`. It fails on a fault or a duplicate id and changes nothing then. Otherwise it is appended and the clock advances. |
| TransactionRepo.AppendKeepsShape | internal/repository/transaction_repo.go:25-27 | Appending keeps ids unique, the log chronological and every stamp before the clock. |
| TransactionRepo.ByUserChronological | internal/repository/transaction_repo.go:29-43 | Filtering a chronological log by user keeps it chronological. |
| TransactionRepo.History | internal/repository/transaction_repo.go:29-32 | Holds exactly the user's records, newest first, when the log is chronological. |
| TransactionRepo.Window | internal/repository/transaction_repo.go:34-36 | A limit of 0 or less returns everything. Otherwise at most `limit` records are returned, from the offset onward, and a non-positive offset is treated as none. |
| TransactionRepo.FindByUserID | internal/repository/transaction_repo.go:29-43 | An error exactly on a fault. Otherwise the result is exactly the page that `limit` and `offset` select from the user's newest-first history (`Window` of `History`): only the user's records, newest first, at most `limit` of them, and all of them with no limit. |
| TransactionRepo.FindByID | internal/repository/transaction_repo.go:45-52 | A fault is a storage error and a missing id is "record not found", both directions; a found record has that id. |
| TransactionRepo.FindByIDIsUnique | internal/repository/transaction_repo.go:45-52 | With unique ids, looking up a stored record's id returns that record. |
| TransactionRepo.CountByUserID | internal/repository/transaction_repo.go:54-58 | An error exactly on a fault. Otherwise the count is the number of the user's records, the length of the unpaginated history, so between 0 and the log's length. |
| TransactionRepo.CountOf | internal/repository/transaction_repo.go:54-58 | The number of the user's records is at most the log's length. |
| TransactionRepo.CountIsHistoryLength | internal/repository/transaction_repo.go:29-58 | The count equals the number of records `FindByUserID` can page through. |
| TransactionRepo.TransactionRepository.Create | internal/repository/transaction_repo.go:25-27 | Changes the log exactly as `Append` says, never alters a stored record, and keeps the log's invariant. |
| CoinGecko.Get | internal/services/coingecko_service.go:39 | Redis GET returns a value exactly when the read reports no error and the key is present and not expired. A read error yields nothing. |
| CoinGecko.Expiry | internal/services/coingecko_service.go:55 | A positive TTL expires the entry TTL seconds after the write; a TTL of 0 or less never expires it (go-redis). |
| CoinGecko.CachedTable | internal/services/coingecko_service.go:39-45 | A cache hit needs an error-free read of a live entry under `crypto_prices` that decodes as a price table. Anything else is a miss, a Redis read error included. |
| CoinGecko.FeedIdsQuery | internal/services/coingecko_service.go:69 | The ids sent are "bitcoin,ethereum,tether". |
| CoinGecko.PriceUrl | internal/services/coingecko_service.go:99-100 | The URL is the API base, then `/simple/price?ids=`, then the comma-joined ids, then `&vs_currencies=idr`, and nothing else. |
| CoinGecko.PriceUrlCarriesIds | internal/services/coingecko_service.go:99-100 | The request URL is the API base, `/simple/price?ids=`, the joined ids and `&vs_currencies=idr`, and the ids can be read back from it. |
| CoinGecko.FetchFromApi | internal/services/coingecko_service.go:97-123 | Succeeds exactly on a 200 response whose body decodes, returning that table. A transport error, any other status or a bad body is a fetch error. |
| CoinGecko.CacheAside | internal/services/coingecko_service.go:34-58 | A hit is served without a fetch and without a write. A miss, an undecodable entry or a Redis read error fetches; a read error fetches whatever the cache holds. A fetched table is stored under the key, so the next error-free read at that time is a hit with the same table. A failure writes nothing. No other key is touched. |
| CoinGecko.HitServesLastStored | internal/services/coingecko_service.go:36-45 | Once a table is obtained, from the cache or from the feed after a miss or a read error, a later error-free request at that time gets the same table and writes nothing, for any ids and whatever the feed says. |
| CoinGecko.CacheAsideIdempotent | internal/services/coingecko_service.go:34-58 | Asking twice at the same time, with Redis in the same condition, gives the same answer and the same cache. After a read error the second request stores the same entry again. |
| CoinGecko.StoredTableLifetime | internal/services/coingecko_service.go:54-55 | A table fetched after a miss or a read error is served to error-free reads exactly until its TTL runs out, and forever when the TTL is 0 or less. |
| CoinGecko.ClearedCacheFetches | internal/services/coingecko_service.go:126-129 | After the key is deleted, the next request goes to the feed. |
| CoinGecko.ExtractPrice | internal/services/coingecko_service.go:76-93 | A symbol outside BTC/ETH/USDT is unsupported. Otherwise the result is the table's `idr` entry for its coin id, or "price not found" exactly when that entry is missing. |
| CoinGecko.UnitPrice | internal/services/coingecko_service.go:61-94 | IDR in any case is 1 without consulting the table. Otherwise a table error is returned as it is, and a table is read through `ExtractPrice` for the upper-cased symbol. |
| CoinGecko.PriceLookup | internal/services/coingecko_service.go:61-94 | The price is `UnitPrice` of the table request's outcome. IDR leaves the cache alone; every other symbol leaves it as the cache-aside request does. |
| CoinGecko.ReferenceCurrencyShortCircuits | internal/services/coingecko_service.go:62-67 | "idr", "Idr", the spelling with a dotless i, and so on cost 1 and never touch the cache or the feed, even when Redis reads fail. |
| CoinGecko.UnsupportedSymbolConsultsCacheFirst | internal/services/coingecko_service.go:69-85 | An unknown symbol never gets a price. The cache is consulted (and filled on a miss) before the symbol is rejected, and a fetch error takes precedence. |
| CoinGecko.CoinGeckoService.constructor | internal/services/coingecko_service.go:26-31 | The service keeps the API URL, the TTL and the Redis handle it is given. |
| CoinGecko.CoinGeckoService.GetCryptoPrices | internal/services/coingecko_service.go:34-58 | For the given outcome of the GET, returns and leaves in Redis exactly what `CacheAside` says. |
| CoinGecko.CoinGeckoService.GetPrice | internal/services/coingecko_service.go:61-94 | For the given outcome of the GET, returns and leaves in Redis exactly what `PriceLookup` says. |
| CoinGecko.CoinGeckoService.ClearCache | internal/services/coingecko_service.go:126-129 | A Redis error is returned and changes nothing. Otherwise exactly the price key is removed. |
| Ledger.GetOrCreate | internal/services/wallet_service.go:35-54 | A returned wallet carries the requested (user, currency). |
| Ledger.GetOrCreateCases | internal/services/wallet_service.go:35-54 | There are three outcomes. A lookup error is returned and nothing is created. A found wallet is returned unchanged. A missing one is created with balance 0 and appended, or the create error is returned. |
| Ledger.GetOrCreateKeepsBooks | internal/services/wallet_service.go:35-54 | Find-or-create keeps the books: a new wallet starts at 0, which is what the log says for a key with no wallet. |
| Ledger.GetOrCreateAtNet | internal/services/wallet_service.go:35-54 | Under the books, the wallet obtained holds exactly what the log accounts for its key. |
| Ledger.GetOrCreateBalance | internal/services/wallet_service.go:35-54 | The wallet obtained holds what its (user, currency) held: the existing balance, or 0 for a new wallet. |
| Ledger.Rollback | internal/services/wallet_service.go:64-68 | Records the rollback. In the scope it restores the snapshot; as wired it leaves the repository writes in place. |
| Ledger.Commit | internal/services/wallet_service.go:104 | A commit error is returned, and in the scope the snapshot is restored. Otherwise the writes stand. The event is recorded either way. |
| Ledger.PriceAt | internal/services/wallet_service.go:85-88 | A failed price lookup is recorded as price 0; a successful one with its price. |
| Ledger.EntryFields | internal/services/wallet_service.go:91-97 | The record handed to the repository carries the request's user, kind, currency and amount, and the looked-up price, which is 0 when the lookup failed. Its id and creation stamp are left to the hook and the store. |
| Ledger.Settle | internal/services/wallet_service.go:77-104 | The shared tail succeeds exactly when the balance write, the append and the commit all succeed. It always ends the scope, and in the scope any error leaves the wallets and the log as they were. |
| Ledger.Record | internal/services/wallet_service.go:91-104 | Succeeds exactly when the record can be appended and the commit succeeds; a failed append returns the insert error. |
| Ledger.DepositPriced | internal/services/wallet_service.go:57-105 | A non-positive amount is refused before the scope opens and changes nothing. Any other request opens the scope and closes it with a rollback or a commit. |
| Ledger.WithdrawPriced | internal/services/wallet_service.go:108-167 | A non-positive amount is refused before the scope opens and changes nothing. Any other request opens and closes the scope. |
| Ledger.Deposit | internal/services/wallet_service.go:56-105 | A non-positive amount is refused before the scope opens and changes nothing. Any other request opens the scope and ends it with a rollback, or with a commit whose error is returned. |
| Ledger.Withdraw | internal/services/wallet_service.go:108-167 | A non-positive amount is refused before the scope opens and changes nothing. Any other request opens the scope and ends it with a rollback, or with a commit whose error is returned. |
| Ledger.DepositOutcome | internal/services/wallet_service.go:57-105 | A deposit succeeds exactly when the amount is positive and no database step fails; the price plays no part. A success appends exactly the stamped deposit record and leaves the cache as the lookup left it. |
| Ledger.WithdrawOutcome | internal/services/wallet_service.go:108-167 | A withdrawal succeeds exactly when a wallet holding at least the amount exists and no database step fails. A success appends exactly the stamped record. |
| Ledger.DepositLog | internal/services/wallet_service.go:91-104 | A deposit leaves the log as it was or with its one record added. In the scope an error adds nothing. |
| Ledger.WithdrawLog | internal/services/wallet_service.go:153-166 | A withdrawal leaves the log as it was or with its one record added. In the scope an error adds nothing. |
| Ledger.WithdrawRefusals | internal/services/wallet_service.go:122-137 | "wallet not found" and "insufficient balance" are returned exactly in those situations, both directions. Either way the wallets, the log and the cache stay as they were. |
| Ledger.AtomicWhenScoped | internal/services/wallet_service.go:57-167 | In the scope, Deposit and Withdraw are all or nothing: any error leaves the wallets and the log unchanged. |
| Ledger.EmptyIsSound | internal/services/wallet_service.go:20-32 | An empty store satisfies the ledger invariant. |
| Ledger.BalanceIsNet | internal/services/wallet_service.go:57-167 | Under the books, a (user, currency) balance is the net of its records and is not negative. |
| Ledger.BeginKeepsSound | internal/services/wallet_service.go:62 | Opening the scope changes nothing but the event trail, where it records `Began`, and keeps the invariant. |
| Ledger.RollbackKeepsSound | internal/services/wallet_service.go:64-68 | A rollback that restores a sound snapshot, or leaves a sound state, keeps the invariant. |
| Ledger.CommitKeepsSound | internal/services/wallet_service.go:104 | A commit keeps the invariant. |
| Ledger.SettleKeepsSound | internal/services/wallet_service.go:77-104 | The shared tail keeps the invariant when the balance written is the old one plus the record's delta. |
| Ledger.DepositKeepsSound | internal/services/wallet_service.go:57-105 | A deposit keeps the invariant in the scope, and as wired whenever its append can succeed. |
| Ledger.WithdrawKeepsSound | internal/services/wallet_service.go:108-167 | A withdrawal keeps the invariant in the scope, and as wired whenever its append can succeed. No balance goes negative. |
| Ledger.SoundBalance | internal/services/wallet_service.go:57-167 | In a sound state every balance is the recorded deposits minus the recorded withdrawals. |
| Ledger.DepositCredits | internal/services/wallet_service.go:77-102 | Under the invariant, and in the scope or as wired when the append succeeds, a deposit credits the depositor's (user, currency) by the amount exactly when its record is appended, and moves no other balance. |
| Ledger.WithdrawDebits | internal/services/wallet_service.go:140-164 | Under the invariant, and in the scope or as wired when the append succeeds, a withdrawal debits the withdrawer's (user, currency) by the amount exactly when its record is appended, moves no other balance, and leaves none negative. |
| Ledger.SettleWallets | internal/services/wallet_service.go:77-104 | The shared tail leaves the wallet table as the request found it, as find-or-create left it, or with the one balance written; it is the last whenever no error is returned. |
| Ledger.SettleKeepsKeys | internal/services/wallet_service.go:77-104 | Writing one balance in the shared tail keeps wallet ids unique and one wallet per (user, currency). |
| Ledger.SettleMovesBalance | internal/services/wallet_service.go:77-104 | When the tail returns no error, the (user, currency) of the wallet found ends with that wallet's balance moved by the request's delta. |
| Ledger.BooksMove | internal/services/wallet_service.go:77-164 | Between two states that keep the invariant, an appended record moves its owner's balance by its contribution, and with no record appended the balance stays; either way it is non-negative. |
| Ledger.DepositKeepsKeys | internal/services/wallet_service.go:57-105 | In every outcome and under either wiring, a deposit keeps wallet ids unique and one wallet per (user, currency). |
| Ledger.WithdrawKeepsKeys | internal/services/wallet_service.go:108-167 | In every outcome and under either wiring, a withdrawal keeps wallet ids unique and one wallet per (user, currency). |
| Ledger.DepositRaisesBalance | internal/services/wallet_service.go:69-105 | Under either wiring and without the invariant, only the table's keys, a deposit that returns no error raises its (user, currency) by exactly the amount. |
| Ledger.WithdrawLowersBalance | internal/services/wallet_service.go:116-167 | Under either wiring and without the invariant, only the table's keys, a withdrawal that returns no error lowers its (user, currency) by exactly the amount and leaves it non-negative. |
| Ledger.AppendFailureAsWritten | internal/services/wallet_service.go:77-102 | As wired, a failed append after the balance write returns the insert error and rolls back. The balance still carries the credit, the log has no record of it, and the invariant is broken. |
| Ledger.CreditedWithoutRecord | internal/services/wallet_service.go:71-82 | The balance write of a deposit raises the key's balance by the amount. That is then no longer what the unchanged log accounts for. |
| Ledger.StepLog | internal/services/wallet_service.go:57-167 | One request appends at most its own record and never alters earlier ones. |
| Ledger.Run | internal/services/wallet_service.go:57-167 | Over any sequence of requests the old log is a prefix of the new one: history only grows. |
| Ledger.RunKeepsSound | internal/services/wallet_service.go:57-167 | Any sequence of deposits and withdrawals keeps the invariant, in the scope always and as wired when no append fails. |
| Ledger.RunKeepsKeys | internal/services/wallet_service.go:57-167 | Any sequence of deposits and withdrawals keeps wallet ids unique and one wallet per (user, currency), under either wiring and whatever fails along the way. |
| Ledger.DepositAfterRunCredits | internal/services/wallet_service.go:57-167 | From an empty store and after any sequence of requests, failed appends as wired included, a deposit that succeeds credits its (user, currency) with exactly its amount. |
| Ledger.GetOrCreateKeepsSolvent | internal/services/wallet_service.go:35-54 | Find-or-create leaves no balance negative, and the wallet it yields holds a balance of 0 or more. |
| Ledger.SettleKeepsSolvent | internal/services/wallet_service.go:77-104 | The shared tail leaves no balance negative when the balance it writes is not negative, whatever fails. |
| Ledger.DepositKeepsSolvent | internal/services/wallet_service.go:57-105 | In every outcome and under either wiring, a deposit leaves no balance negative. |
| Ledger.WithdrawKeepsSolvent | internal/services/wallet_service.go:108-167 | In every outcome and under either wiring, a withdrawal leaves no balance negative, because it writes `balance - amount` only after checking that the balance covers the amount. |
| Ledger.RunKeepsSolvent | internal/services/wallet_service.go:57-167 | Any sequence of deposits and withdrawals leaves no balance negative, under either wiring and whatever fails along the way, lost records as wired included. |
| Ledger.Conservation | internal/services/wallet_service.go:57-167 | From an empty store, after any sequence of requests and whatever fails in them, no balance is negative. Every balance is the recorded deposits minus the recorded withdrawals of its (user, currency) in the scope, or as wired when no append fails. |
| Ledger.DepositThenOverdraw | internal/services/wallet_service.go:134-137 | Depositing 2 ETH and then withdrawing 3 leaves a balance of 2 and one record, and the withdrawal is refused as insufficient. |
| Portfolio.Line | internal/services/wallet_service.go:191-198 | A portfolio line repeats the wallet's currency and balance, carries the unit price, and is valued at balance × price. |
| Portfolio.NonZero | internal/services/wallet_service.go:181-183 | Keeps exactly the wallets whose balance is not zero. |
| Portfolio.Visit | internal/services/wallet_service.go:180-201 | Visiting a wallet fails exactly when it cannot be priced. A zero wallet is skipped without a price. |
| Portfolio.PortfolioOf | internal/services/wallet_service.go:177-206 | An empty listing values to an empty report with total 0. What a longer listing values to is stated by the lemmas that follow. |
| Portfolio.PortfolioTotal | internal/services/wallet_service.go:200 | The total of a successful valuation is the sum of its line values. |
| Portfolio.PortfolioSucceeds | internal/services/wallet_service.go:180-201 | The valuation succeeds exactly when every wallet is zero or has a price. |
| Portfolio.PortfolioLines | internal/services/wallet_service.go:180-198 | A successful valuation lists exactly the non-zero wallets, in order, each at its unit price. |
| Portfolio.StopsAtFirstError | internal/services/wallet_service.go:186-189 | A failure names the first wallet that cannot be priced, with its currency and the price error. |
| Portfolio.FailureIsFinal | internal/services/wallet_service.go:186-189 | Once a prefix fails, the remaining wallets are never looked at. |
| Portfolio.LookupAgainstOneTable | internal/services/wallet_service.go:186 | Every price lookup within one request is answered from the first table request's outcome. |
| Portfolio.Valued | internal/services/wallet_service.go:170-207 | A listing error is returned before the cache is consulted, and leaves it alone. Otherwise the user's wallets are valued against the first table request. The cache is left alone when none of them has a balance. |
| Portfolio.ValuedSucceeds | internal/services/wallet_service.go:170-207 | GetPortfolio succeeds exactly when every non-zero wallet of the user has a price. |
| Portfolio.ValuedLines | internal/services/wallet_service.go:170-207 | A successful GetPortfolio has one line for every non-zero wallet of the user, in listing order, and no other line. Each line is valued at balance × its unit price in the one table outcome, and the total is the sum of the lines. |
| Portfolio.SkipsEmptyWallet | internal/services/wallet_service.go:181-200 | With 0 BTC and 1.5 ETH at 50,000,000 IDR, the portfolio is one ETH line worth 75,000,000. |
| LedgerService.WalletService.constructor | internal/services/wallet_service.go:20-32 | The service holds the repositories and the price service it is given, and has an empty scope history. |
| LedgerService.WalletService.GetOrCreateWallet | internal/services/wallet_service.go:35-54 | Returns, and leaves in the wallet table, exactly what `Ledger.GetOrCreate` says. |
| LedgerService.WalletService.Rollback | internal/services/wallet_service.go:64-68 | Leaves the store exactly as `Ledger.Rollback` says. |
| LedgerService.WalletService.Commit | internal/services/wallet_service.go:104 | Returns and leaves exactly what `Ledger.Commit` says. |
| LedgerService.WalletService.Settle | internal/services/wallet_service.go:77-104 | Returns and leaves exactly what `Ledger.Settle` says. |
| LedgerService.WalletService.Record | internal/services/wallet_service.go:91-104 | Returns and leaves exactly what `Ledger.Record` says. |
| LedgerService.WalletService.Deposit | internal/services/wallet_service.go:57-105 | Returns the error, and leaves the store, the cache and the scope history, exactly as `Ledger.Deposit` says. |
| LedgerService.WalletService.DepositInScope | internal/services/wallet_service.go:63-104 | The scoped part of Deposit computes `Ledger.DepositPriced` with the price its lookup yields. |
| LedgerService.WalletService.DepositInto | internal/services/wallet_service.go:77-104 | Once the wallet is obtained, Deposit's tail computes `Ledger.DepositPriced`. |
| LedgerService.WalletService.Withdraw | internal/services/wallet_service.go:108-167 | Returns the error and leaves the state exactly as `Ledger.Withdraw` says. |
| LedgerService.WalletService.WithdrawInScope | internal/services/wallet_service.go:114-166 | The scoped part of Withdraw computes `Ledger.WithdrawPriced`. |
| LedgerService.WalletService.GetPortfolio | internal/services/wallet_service.go:170-207 | For the given outcome of the Redis reads, returns the report or error of `Portfolio.Valued` and leaves the cache it says. |
| LedgerService.WalletService.ValueAll | internal/services/wallet_service.go:177-206 | The loop computes `PortfolioOf` of the listing against the first table request. The cache ends as that request left it once a non-zero wallet needed the table, and is untouched otherwise. |
| LedgerService.WalletService.ValueWallet | internal/services/wallet_service.go:180-201 | One loop turn extends the valuation of the prefix by one wallet, or stops with the valuation's error. |
| LedgerService.WalletService.PriceWallet | internal/services/wallet_service.go:186-198 | Pricing one wallet extends the prefix's valuation by its line, or yields the whole valuation's error. |
| LedgerService.WalletService.GetWallets | internal/services/wallet_service.go:210-212 | Returns exactly the user's wallets, or the listing error. |
| LedgerService.FeedDownDepositThenPortfolio | internal/services/wallet_service.go:85-88 | With the price feed down, a 1.5 ETH deposit still succeeds and records price 0; the portfolio that follows fails naming ETH with the transport error. |
| TransactionHandler.Wrap | internal/handlers/transaction_handler.go:39 | Go's 64-bit wrap-around: the result is an int64 congruent to the input modulo 2^64, and equal to it when it fits. |
| TransactionHandler.ClampLimit | internal/handlers/transaction_handler.go:32-34 | A limit between 1 and 100 is kept; anything else becomes 20. |
| TransactionHandler.ClampPage | internal/handlers/transaction_handler.go:35-37 | A page below 1 becomes 1; any other page is kept. |
| TransactionHandler.OffsetAsWritten | internal/handlers/transaction_handler.go:39 | The 64-bit product is exact when it fits, and otherwise wraps. |
| TransactionHandler.OffsetAsWrittenWraps | internal/handlers/transaction_handler.go:39-46 | Page 576460752303423489 at the default limit gives offset -6917529027641081856, and the query returns the first page. |
| TransactionHandler.Offset | internal/handlers/transaction_handler.go:39 | Corrected offset: never negative, exact whenever `(page-1)*limit` fits, the largest int otherwise. |
| TransactionHandler.TotalPages | internal/handlers/transaction_handler.go:61 | `total_pages` is the ceiling of total / limit, and is 0 exactly when there are no records. |
| TransactionHandler.GetTransactions | internal/handlers/transaction_handler.go:21-64 | 401 exactly when unauthenticated, with no query. 500 exactly on a query error, with the count skipped after a failed listing. Otherwise 200 with the clamped page and limit, the user's count, the page count and that page of the user's newest-first history. |
| TransactionHandler.PageSizes | internal/handlers/transaction_handler.go:39-61 | The pages partition the history: a page up to `total_pages` holds `limit` records or the remainder, and later pages are empty. |
| WalletHandler.Forwarded | internal/handlers/wallet_handler.go:38-58 | A request reaches the service exactly when the caller is authenticated, the body binds, and the currency is whitelisted as sent. |
| WalletHandler.Submit | internal/handlers/wallet_handler.go:38-105 | 401 exactly when unauthenticated. 400 for a binding failure, a non-whitelisted currency or any service error. 200 exactly when forwarded and the service succeeds, echoing currency and amount. No other status. |
| WalletHandler.NotForwardedIgnoresService | internal/handlers/wallet_handler.go:38-58 | A request that is not forwarded gets the same reply whatever the service would answer. |
| WalletHandler.ForwardedOpensScope | internal/handlers/wallet_handler.go:45-63 | A forwarded request always passes the service's amount check and opens its scope. |
| WalletHandler.WhitelistIsPriced | internal/handlers/wallet_handler.go:52-58 | Every whitelisted currency is one the price service supports. Its price may be missing, but it is never "unsupported". |
| WalletHandler.GetWallet | internal/handlers/wallet_handler.go:21-35 | 401 exactly when unauthenticated. 500 carrying the service error. Otherwise 200 with the portfolio. |

## Left out

- Configuration loading (`config/config.go`). The API URL and the cache TTL are parameters of the service. A malformed `CACHE_DURATION_SECONDS` gives a TTL of 0 (its default is 60), which go-redis treats as no expiry; the model keeps that behaviour.
- Process wiring, routes, CORS and the authentication handler and middleware. The authenticated user id (or the middleware's error message) is an input `Auth`.
- HTTP transport, JSON encoding and decoding, and the CoinGecko endpoint. The feed is an oracle from URL to outcome, and a request body is given as already decoded or not.
- `strconv.Atoi`: its result is an input (0 on a malformed parameter), and the ignored parse error is not modelled.
- Floating point: `float64` amounts and prices and PostgreSQL's `numeric(18,8)` columns are modelled as exact reals, so rounding is not captured.
- Concurrency: requests run one after another, so races between concurrent deposits on one wallet are not modelled.
- The `recover()`/panic path of Deposit and Withdraw: the model has no panics.
- gorm's `created_at`/`updated_at` timestamps: records are stamped from a store clock that advances on every insert, and `UpdatedAt` is not modelled.
- The `User` associations of the models and the unused `transfer` transaction type.
- Errors from `json.Marshal` and Redis `SET` in the price service are ignored in the source and are not modelled. A cache entry that fails to decode is a miss, as in the source.
- The clock is one value `now` per request, so a cache entry cannot expire between two lookups of one request.
- The `BeforeCreate` hooks are modelled on values and applied by the repositories' inserts, not as hooks that mutate the struct in place.
- A portfolio with no assets is reported as an empty list. The distinction between Go's nil slice (`null` in JSON) and an empty one is not modelled.
- TransactionHandler.GetTransactions: it uses the corrected, saturating `Offset` (see Findings), not the wrapping one. `total_pages` is computed on unbounded integers, which matches the source for any history of fewer than 2^63 − 100 records.
- Text.ToUpper: only ASCII, Latin-1, dotless i and long s are upper-cased. Every other letter keeps its case, where Go's `unicode.ToUpper` would map it. No such letter upper-cases into ASCII, so recognising IDR, BTC, ETH and USDT is as in Go. Only the case of the symbol named in an "unsupported currency" error can differ.
- CoinGecko.CacheAside and the members built on it take one Redis read outcome per request, so a GET that fails on some lookups of a portfolio request and not on others is not modelled. With a read error, each lookup of one portfolio request fetches again, and in Go each fetch is a separate HTTP call that may answer differently or fail. The model's feed is a fixed map from URL to outcome, so it answers all of those fetches the same.
- WalletRepo.FindAllByUserID: the query has no ORDER BY (`internal/repository/wallet_repo.go:45`), so PostgreSQL returns the rows in an unspecified order. The model lists them in table order. "Listing order" in `Portfolio.PortfolioLines` and `Portfolio.ValuedLines`, and the first failing wallet in `Portfolio.StopsAtFirstError`, refer to that order.

## Findings

| source | as written | input that shows it | evidently intended | confidence | as-written member | corrected member |
|---|---|---|---|---|---|---|
| cmd/main.go:32-33, internal/services/wallet_service.go:63-102 | The repositories write through the plain database handle, not through the transaction `Begin` opens. A rollback after `UpdateBalance` therefore does not undo the balance change. | A deposit of 1.0 to an existing wallet, where inserting the transaction record fails: the error is returned, the balance stays raised, and no record exists. | Deposit and Withdraw are atomic: any error leaves balances and history as they were, so every balance stays equal to its recorded net. | not executed | Ledger.AppendFailureAsWritten | Ledger.AtomicWhenScoped |
| internal/handlers/transaction_handler.go:39 | `offset := (page - 1) * limit` in 64-bit `int` wraps for large pages. A negative offset makes gorm drop the OFFSET clause. | `page=576460752303423489&limit=20`: the offset becomes -6917529027641081856 and the first page is returned instead of an empty one. | A page past the end returns no records. | not executed | TransactionHandler.OffsetAsWrittenWraps | TransactionHandler.Offset |
