/** `WalletService`: the ledger engine over the two repositories, the price
    service and the database scope. Each method does what the Go method
    does, step by step, and is proved to compute the matching function of
    module Ledger (Deposit, Withdraw, find-or-create) or Portfolio
    (GetPortfolio); what those functions guarantee is proved there.

    The scope is the snapshot of the wallet table and the transaction log
    taken at `Begin`, with the events `Began`, `RolledBack` and `Committed`
    recorded in `events`. `repositoriesInScope` says whether a rollback
    restores that snapshot. As the program is wired (the repositories are
    built over the plain database handle) it is false and a rollback undoes
    none of the repository writes; see `Ledger.AppendFailureAsWritten`. */
module LedgerService {
  import opened Common
  import opened WalletModel
  import opened TransactionModel
  import WalletRepo
  import TransactionRepo
  import CoinGecko
  import Ledger
  import Portfolio
  import Text

  class WalletService {
    const walletRepo: WalletRepo.WalletRepository
    const transactionRepo: TransactionRepo.TransactionRepository
    const coinGecko: CoinGecko.CoinGeckoService
    /** Whether the repositories write through the scope that Deposit and
        Withdraw open. */
    const repositoriesInScope: bool
    var events: seq<Ledger.ScopeEvent>

    ghost predicate Valid()
      reads this, walletRepo, transactionRepo
    {
      walletRepo.Valid() && transactionRepo.Valid()
    }

    function Config(): Ledger.Wiring {
      Ledger.Wiring(coinGecko.apiUrl, coinGecko.cacheTtl, repositoriesInScope)
    }

    /** The store, the log and its clock, the cache and the scope events. */
    function State(): Ledger.LedgerState
      reads this, walletRepo, transactionRepo, coinGecko
    {
      Ledger.LedgerState(walletRepo.rows, transactionRepo.log, transactionRepo.clock, coinGecko.redis, events)
    }

    /** `NewWalletService`. */
    constructor (walletRepo: WalletRepo.WalletRepository, transactionRepo: TransactionRepo.TransactionRepository,
                 coinGecko: CoinGecko.CoinGeckoService, repositoriesInScope: bool)
      requires walletRepo.Valid() && transactionRepo.Valid()
      ensures Valid()
      ensures this.walletRepo == walletRepo && this.transactionRepo == transactionRepo
      ensures this.coinGecko == coinGecko && this.repositoriesInScope == repositoriesInScope
      ensures events == []
    {
      this.walletRepo := walletRepo;
      this.transactionRepo := transactionRepo;
      this.coinGecko := coinGecko;
      this.repositoriesInScope := repositoriesInScope;
      events := [];
    }

    /** `tx.Rollback()`. */
    method Rollback(snapWallets: seq<Wallet>, snapLog: seq<Transaction>)
      requires Valid() && WalletRepo.PrimaryKeyed(snapWallets)
      requires TransactionRepo.PrimaryKeyed(snapLog) && TransactionRepo.Chronological(snapLog)
      requires TransactionRepo.StampedBefore(snapLog, transactionRepo.clock)
      modifies this, walletRepo, transactionRepo
      ensures Valid()
      ensures State() == Ledger.Rollback(Config(), snapWallets, snapLog, old(State()))
    {
      events := events + [Ledger.RolledBack];
      if repositoriesInScope {
        walletRepo.rows := snapWallets;
        transactionRepo.log := snapLog;
      }
    }

    /** `tx.Commit()`; `fault` stands for an error from the database. */
    method Commit(snapWallets: seq<Wallet>, snapLog: seq<Transaction>, fault: bool) returns (err: Option<Error>)
      requires Valid() && WalletRepo.PrimaryKeyed(snapWallets)
      requires TransactionRepo.PrimaryKeyed(snapLog) && TransactionRepo.Chronological(snapLog)
      requires TransactionRepo.StampedBefore(snapLog, transactionRepo.clock)
      modifies this, walletRepo, transactionRepo
      ensures Valid()
      ensures (err, State()) == Ledger.Commit(Config(), snapWallets, snapLog, old(State()), fault)
    {
      events := events + [Ledger.Committed];
      if fault {
        err := Some(StorageFailure(CommitScope));
        if repositoriesInScope {
          walletRepo.rows := snapWallets;
          transactionRepo.log := snapLog;
        }
      } else {
        err := None;
      }
    }

    method GetOrCreateWallet(userId: Uuid, currency: string, generated: Uuid, findFault: bool, createFault: bool)
      returns (r: Result<Wallet>)
      requires Valid() && generated != NilId
      modifies walletRepo
      ensures Valid()
      ensures (r, walletRepo.rows) == Ledger.GetOrCreate(old(walletRepo.rows), userId, currency, generated, findFault, createFault)
    {
      var found := WalletRepo.FindByUserIDAndCurrency(walletRepo.rows, userId, currency, findFault);
      if found.Err? {
        return Err(found.error);
      }
      if found.value.None? {
        var created, err := walletRepo.Create(NewWallet(userId, currency), generated, createFault);
        if err.Some? {
          return Err(err.value);
        }
        return Ok(created);
      }
      r := Ok(found.value.value);
    }

    /** The steps Deposit and Withdraw share once the wallet and its new
        balance are known: write the balance, then `Record`; a failed write
        rolls the scope back. `l` is the state the request began with;
        the scope is open and the wallet table `ws` is as the lookup (or
        find-or-create) left it. */
    method Settle(ghost l: Ledger.LedgerState, ghost ws: seq<Wallet>, snapWallets: seq<Wallet>, snapLog: seq<Transaction>,
                  walletId: Uuid, newBalance: real, kind: TransactionType,
                  userId: Uuid, currency: string, amount: real, env: Ledger.Env)
      returns (err: Option<Error>)
      requires Valid() && env.transactionId != NilId
      requires snapWallets == l.wallets && snapLog == l.log && WalletRepo.PrimaryKeyed(l.wallets)
      requires walletRepo.rows == ws && transactionRepo.log == l.log && transactionRepo.clock == l.clock
      requires coinGecko.redis == l.redis && events == l.events + [Ledger.Began]
      modifies this, walletRepo, transactionRepo, coinGecko
      ensures Valid()
      ensures (err, State()) == Ledger.Settle(Config(), l, ws, walletId, newBalance, kind,
                                              userId, currency, amount, Ledger.Lookup(Config(), l, currency, env), env)
    {
      err := walletRepo.UpdateBalance(walletId, newBalance, env.faults.updateBalance);
      if err.Some? {
        Rollback(snapWallets, snapLog);
        return;
      }
      err := Record(l, WalletRepo.SetBalance(ws, walletId, newBalance), snapWallets, snapLog,
                    kind, userId, currency, amount, env);
    }

    /** Look up the price (a failure is absorbed as 0), append the record,
        commit; a failed append rolls the scope back. */
    method Record(ghost l: Ledger.LedgerState, ghost written: seq<Wallet>, snapWallets: seq<Wallet>, snapLog: seq<Transaction>,
                  kind: TransactionType, userId: Uuid, currency: string, amount: real, env: Ledger.Env)
      returns (err: Option<Error>)
      requires Valid() && env.transactionId != NilId
      requires snapWallets == l.wallets && snapLog == l.log && WalletRepo.PrimaryKeyed(l.wallets)
      requires walletRepo.rows == written && transactionRepo.log == l.log && transactionRepo.clock == l.clock
      requires coinGecko.redis == l.redis && events == l.events + [Ledger.Began]
      modifies this, walletRepo, transactionRepo, coinGecko
      ensures Valid()
      ensures (err, State()) == Ledger.Record(Config(), l, written, kind, userId, currency, amount,
                                              Ledger.Lookup(Config(), l, currency, env), env)
    {
      var p := coinGecko.GetPrice(currency, env.now, env.faults.readCache, env.feed);
      var priceAt := if p.Err? then 0.0 else p.value;
      var t := Transaction(NilId, userId, kind, currency, amount, priceAt, 0);
      var _, e := transactionRepo.Create(t, env.transactionId, env.faults.createTransaction);
      if e.Some? {
        Rollback(snapWallets, snapLog);
        return e;
      }
      err := Commit(snapWallets, snapLog, env.faults.commit);
    }

    method Deposit(userId: Uuid, currency: string, amount: real, env: Ledger.Env) returns (err: Option<Error>)
      requires Valid() && Ledger.FreshIds(env)
      modifies this, walletRepo, transactionRepo, coinGecko
      ensures Valid()
      ensures (err, State()) == Ledger.Deposit(Config(), old(State()), userId, currency, amount, env)
    {
      if amount <= 0.0 {
        return Some(InvalidAmount);
      }
      ghost var l := State();
      var snapWallets, snapLog := walletRepo.rows, transactionRepo.log;
      events := events + [Ledger.Began];
      err := DepositInScope(l, snapWallets, snapLog, userId, currency, amount, env);
    }

    /** Deposit once the amount is known to be positive and the scope is
        open: find or create the wallet, then `Settle`. */
    method DepositInScope(ghost l: Ledger.LedgerState, snapWallets: seq<Wallet>, snapLog: seq<Transaction>,
                          userId: Uuid, currency: string, amount: real, env: Ledger.Env)
      returns (err: Option<Error>)
      requires Valid() && Ledger.FreshIds(env) && amount > 0.0
      requires snapWallets == l.wallets && snapLog == l.log
      requires walletRepo.rows == l.wallets && transactionRepo.log == l.log && transactionRepo.clock == l.clock
      requires coinGecko.redis == l.redis && events == l.events + [Ledger.Began]
      modifies this, walletRepo, transactionRepo, coinGecko
      ensures Valid()
      ensures (err, State()) == Ledger.DepositPriced(Config(), l, userId, currency, amount, Ledger.Lookup(Config(), l, currency, env), env)
    {
      var wallet := GetOrCreateWallet(userId, currency, env.walletId, env.faults.findWallet, env.faults.createWallet);
      if wallet.Err? {
        Ledger.DepositRollsBack(Config(), l, userId, currency, amount, Ledger.Lookup(Config(), l, currency, env), env);
        Rollback(snapWallets, snapLog);
        return Some(wallet.error);
      }
      err := DepositInto(l, walletRepo.rows, snapWallets, snapLog, wallet.value, userId, currency, amount, env);
    }

    /** Deposit once its wallet is found or created (`ws` is the wallet
        table then): raise the balance by the amount and go on with the
        steps Deposit and Withdraw share. */
    method DepositInto(ghost l: Ledger.LedgerState, ghost ws: seq<Wallet>, snapWallets: seq<Wallet>, snapLog: seq<Transaction>,
                       wallet: Wallet, userId: Uuid, currency: string, amount: real, env: Ledger.Env)
      returns (err: Option<Error>)
      requires Valid() && Ledger.FreshIds(env) && amount > 0.0
      requires Ledger.GetOrCreate(l.wallets, userId, currency, env.walletId, env.faults.findWallet, env.faults.createWallet) == (Ok(wallet), ws)
      requires snapWallets == l.wallets && snapLog == l.log && WalletRepo.PrimaryKeyed(l.wallets)
      requires walletRepo.rows == ws && transactionRepo.log == l.log && transactionRepo.clock == l.clock
      requires coinGecko.redis == l.redis && events == l.events + [Ledger.Began]
      modifies this, walletRepo, transactionRepo, coinGecko
      ensures Valid()
      ensures (err, State()) == Ledger.DepositPriced(Config(), l, userId, currency, amount, Ledger.Lookup(Config(), l, currency, env), env)
    {
      Ledger.DepositThrough(Config(), l, userId, currency, amount, Ledger.Lookup(Config(), l, currency, env), env,
                            wallet, ws);
      err := Settle(l, ws, snapWallets, snapLog, wallet.id, wallet.balance + amount,
                    TransactionType.Deposit, userId, currency, amount, env);
    }

    method Withdraw(userId: Uuid, currency: string, amount: real, env: Ledger.Env) returns (err: Option<Error>)
      requires Valid() && env.transactionId != NilId
      modifies this, walletRepo, transactionRepo, coinGecko
      ensures Valid()
      ensures (err, State()) == Ledger.Withdraw(Config(), old(State()), userId, currency, amount, env)
    {
      if amount <= 0.0 {
        return Some(InvalidAmount);
      }
      ghost var l := State();
      var snapWallets, snapLog := walletRepo.rows, transactionRepo.log;
      events := events + [Ledger.Began];
      err := WithdrawInScope(l, snapWallets, snapLog, userId, currency, amount, env);
    }

    /** Withdraw once the amount is known to be positive and the scope is
        open: look the wallet up, refuse a missing wallet or a balance below
        the amount, then `Settle`. */
    method WithdrawInScope(ghost l: Ledger.LedgerState, snapWallets: seq<Wallet>, snapLog: seq<Transaction>,
                           userId: Uuid, currency: string, amount: real, env: Ledger.Env)
      returns (err: Option<Error>)
      requires Valid() && env.transactionId != NilId && amount > 0.0
      requires snapWallets == l.wallets && snapLog == l.log
      requires walletRepo.rows == l.wallets && transactionRepo.log == l.log && transactionRepo.clock == l.clock
      requires coinGecko.redis == l.redis && events == l.events + [Ledger.Began]
      modifies this, walletRepo, transactionRepo, coinGecko
      ensures Valid()
      ensures (err, State()) == Ledger.WithdrawPriced(Config(), l, userId, currency, amount, Ledger.Lookup(Config(), l, currency, env), env)
    {
      var found := WalletRepo.FindByUserIDAndCurrency(walletRepo.rows, userId, currency, env.faults.findWallet);
      if found.Err? {
        Rollback(snapWallets, snapLog);
        return Some(found.error);
      }
      if found.value.None? {
        Rollback(snapWallets, snapLog);
        return Some(WalletNotFound);
      }
      var wallet := found.value.value;
      if wallet.balance < amount {
        Rollback(snapWallets, snapLog);
        return Some(InsufficientBalance);
      }
      err := Settle(l, walletRepo.rows, snapWallets, snapLog, wallet.id, wallet.balance - amount,
                    TransactionType.Withdraw, userId, currency, amount, env);
      Ledger.WithdrawThrough(Config(), l, userId, currency, amount, Ledger.Lookup(Config(), l, currency, env), env,
                             wallet, (err, State()));
    }

    /** `GetPortfolio`: the user's wallets in listing order, the zero ones
        skipped, each other one priced through the cache and valued; the
        first failed lookup fails the request. */
    method GetPortfolio(userId: Uuid, fault: bool, now: int, readFault: bool, feed: CoinGecko.Feed)
      returns (r: Result<PortfolioResponse>)
      modifies coinGecko
      ensures (r, coinGecko.redis) ==
              Portfolio.Valued(walletRepo.rows, userId, fault, old(coinGecko.redis), now, readFault, coinGecko.cacheTtl, coinGecko.apiUrl, feed)
    {
      var listed := WalletRepo.FindAllByUserID(walletRepo.rows, userId, fault);
      if listed.Err? {
        return Err(listed.error);
      }
      r := ValueAll(listed.value, now, readFault, feed);
    }

    /** The loop of `GetPortfolio` over the listed wallets `ws`: every
        lookup is answered from the outcome `c` of the first table request,
        and the cache ends as that request left it once a non-zero wallet
        needed the table. */
    method ValueAll(ws: seq<Wallet>, now: int, readFault: bool, feed: CoinGecko.Feed)
      returns (r: Result<PortfolioResponse>)
      modifies coinGecko
      ensures var c := CoinGecko.CacheAside(old(coinGecko.redis), now, readFault, coinGecko.cacheTtl, coinGecko.apiUrl,
                                            CoinGecko.FeedIds, feed);
              r == Portfolio.PortfolioOf(ws, c.0) &&
              coinGecko.redis == if Portfolio.NeedsTable(ws) then c.1 else old(coinGecko.redis)
    {
      ghost var redis := coinGecko.redis;
      ghost var c := CoinGecko.CacheAside(redis, now, readFault, coinGecko.cacheTtl, coinGecko.apiUrl, CoinGecko.FeedIds, feed);
      var report := PortfolioResponse([], 0.0);
      var i := 0;
      while i < |ws|
        invariant 0 <= i <= |ws|
        invariant Portfolio.PortfolioOf(ws[..i], c.0) == Ok(report)
        invariant coinGecko.redis == if Portfolio.NeedsTable(ws[..i]) then c.1 else redis
      {
        var next := ValueWallet(ws, i, redis, c, report, ws[i], now, readFault, feed);
        if next.Err? {
          return next;
        }
        report := next.value;
        i := i + 1;
      }
      assert ws[..i] == ws;
      r := Ok(report);
    }

    /** One turn of the loop of `GetPortfolio`: a zero wallet is skipped;
        any other is priced, and its line appended and its value added to
        the total. `ws` is the listing, `wallet` its `i`-th element and `c`
        the outcome of the first table request. */
    method ValueWallet(ghost ws: seq<Wallet>, ghost i: nat, ghost redis: CoinGecko.Redis,
                       ghost c: (Result<CoinGecko.PriceTable>, CoinGecko.Redis),
                       report: PortfolioResponse, wallet: Wallet, now: int, readFault: bool, feed: CoinGecko.Feed)
      returns (next: Result<PortfolioResponse>)
      requires i < |ws| && wallet == ws[i]
      requires c == CoinGecko.CacheAside(redis, now, readFault, coinGecko.cacheTtl, coinGecko.apiUrl, CoinGecko.FeedIds, feed)
      requires Portfolio.PortfolioOf(ws[..i], c.0) == Ok(report)
      requires coinGecko.redis == if Portfolio.NeedsTable(ws[..i]) then c.1 else redis
      modifies coinGecko
      ensures next.Ok? ==> Portfolio.PortfolioOf(ws[..i + 1], c.0) == next
      ensures next.Ok? ==> coinGecko.redis == if Portfolio.NeedsTable(ws[..i + 1]) then c.1 else redis
      ensures next.Err? ==> (next, coinGecko.redis) == (Portfolio.PortfolioOf(ws, c.0), c.1) && Portfolio.NeedsTable(ws)
    {
      if wallet.balance == 0.0 {
        Portfolio.SkipStep(ws, i, c.0, report);
        return Ok(report);
      }
      next := PriceWallet(ws, i, redis, c, report, wallet, now, readFault, feed);
    }

    /** The turn of the loop for a non-zero wallet: look its price up; a
        failure ends the request, otherwise its line is appended and its
        value added to the total. */
    method PriceWallet(ghost ws: seq<Wallet>, ghost i: nat, ghost redis: CoinGecko.Redis,
                       ghost c: (Result<CoinGecko.PriceTable>, CoinGecko.Redis),
                       report: PortfolioResponse, wallet: Wallet, now: int, readFault: bool, feed: CoinGecko.Feed)
      returns (next: Result<PortfolioResponse>)
      requires i < |ws| && wallet == ws[i] && wallet.balance != 0.0
      requires c == CoinGecko.CacheAside(redis, now, readFault, coinGecko.cacheTtl, coinGecko.apiUrl, CoinGecko.FeedIds, feed)
      requires Portfolio.PortfolioOf(ws[..i], c.0) == Ok(report)
      requires coinGecko.redis == if Portfolio.NeedsTable(ws[..i]) then c.1 else redis
      modifies coinGecko
      ensures next.Ok? ==> Portfolio.PortfolioOf(ws[..i + 1], c.0) == next
      ensures next.Ok? ==> coinGecko.redis == if Portfolio.NeedsTable(ws[..i + 1]) then c.1 else redis
      ensures next.Err? ==> (next, coinGecko.redis) == (Portfolio.PortfolioOf(ws, c.0), c.1) && Portfolio.NeedsTable(ws)
    {
      ghost var cur := coinGecko.redis;
      var price := coinGecko.GetPrice(wallet.currency, now, readFault, feed);
      if price.Err? {
        Portfolio.FailedTurn(ws, i, redis, c, report, cur, price.error, coinGecko.redis,
                             now, readFault, coinGecko.cacheTtl, coinGecko.apiUrl, feed);
        return Err(PriceLookupFailed(wallet.currency, price.error));
      }
      var line := Portfolio.Line(wallet, price.value);
      Portfolio.PricedTurn(ws, i, redis, c, report, cur, price.value, coinGecko.redis, line,
                           now, readFault, coinGecko.cacheTtl, coinGecko.apiUrl, feed);
      next := Ok(PortfolioResponse(report.assets + [line], report.totalValueIdr + line.valueIdr));
    }

    /** `GetWallets`: the user's wallets, as the repository lists them. */
    method GetWallets(userId: Uuid, fault: bool) returns (r: Result<seq<Wallet>>)
      ensures r == WalletRepo.FindAllByUserID(walletRepo.rows, userId, fault)
      ensures r.Ok? ==> forall w :: w in r.value <==> w in walletRepo.rows && w.userId == userId
    {
      r := WalletRepo.FindAllByUserID(walletRepo.rows, userId, fault);
    }
  }

  /** With the feed unreachable and nothing cached, a deposit of 1.5 ETH
      still succeeds and records a price of 0, while the portfolio that
      follows fails on the ETH wallet with the transport error. */
  lemma FeedDownDepositThenPortfolio(w: Ledger.Wiring)
    ensures var feed: CoinGecko.Feed := _ => CoinGecko.TransportError;
            var l0 := Ledger.LedgerState([], [], 0, map[], []);
            var d := Ledger.Deposit(w, l0, 1, "ETH", 1.5, Ledger.Env(Ledger.NoFaults, 10, 20, 0, feed));
            d.0.None? && d.1.log == [Transaction(20, 1, TransactionType.Deposit, "ETH", 1.5, 0.0, 0)] &&
            Portfolio.Valued(d.1.wallets, 1, false, d.1.redis, 0, false, w.cacheTtl, w.apiUrl, feed).0 ==
              Err(PriceLookupFailed("ETH", FetchFailed(Transport)))
  {
    var feed: CoinGecko.Feed := _ => CoinGecko.TransportError;
    var l0 := Ledger.LedgerState([], [], 0, map[], []);
    var env := Ledger.Env(Ledger.NoFaults, 10, 20, 0, feed);
    assert Text.ToUpper("ETH") == "ETH";
    var price := Ledger.Lookup(w, l0, "ETH", env);
    assert price == (Err(FetchFailed(Transport)), map[]);
    Ledger.DepositOutcome(w, l0, 1, "ETH", 1.5, price, env);
    var d := Ledger.Deposit(w, l0, 1, "ETH", 1.5, env);
    assert d.1.wallets == [Wallet(10, 1, "ETH", 1.5)];
    assert d.1.redis == map[];
    var rows := [Wallet(10, 1, "ETH", 1.5)];
    assert rows[1..] == [];
    assert WalletRepo.OwnedBy(rows, 1) == rows;
    assert Portfolio.PortfolioOf([Wallet(10, 1, "ETH", 1.5)], Err(FetchFailed(Transport))) ==
           Err(PriceLookupFailed("ETH", FetchFailed(Transport)));
  }
}
