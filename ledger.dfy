/** The ledger engine of `WalletService` (Deposit, Withdraw and the
    find-or-create step they share) as functions from the state of the
    store, the price cache and the scope to the error returned and the new
    state. The class `LedgerService.WalletService` is proved to compute
    exactly these functions; the lemmas here state what they guarantee.

    The scope. Deposit and Withdraw open a database transaction (`Begin`)
    and end every failing path with `Rollback` and the successful one with
    `Commit`. Whether that protects the store depends on the wiring: the
    repositories are built over the plain database handle, not over the
    transaction, so as the program is wired their writes are not part of
    the scope and a rollback undoes nothing. `Wiring.repositoriesInScope`
    selects between the two behaviours: false is the program as wired,
    true the evidently intended wiring in which a rollback restores the
    snapshot taken at `Begin`. */
module Ledger {
  import opened Common
  import opened WalletModel
  import opened TransactionModel
  import WalletRepo
  import TransactionRepo
  import CoinGecko

  datatype ScopeEvent = Began | RolledBack | Committed

  datatype Wiring = Wiring(apiUrl: string, cacheTtl: int, repositoriesInScope: bool)

  /** Which database calls of one request report an error, and whether its
      Redis reads do. */
  datatype Faults = Faults(findWallet: bool, createWallet: bool, updateBalance: bool,
                           createTransaction: bool, commit: bool, readCache: bool)

  const NoFaults: Faults := Faults(false, false, false, false, false, false)

  /** What the world supplies to one request: the database errors, the
      UUIDs `uuid.New()` yields for a new wallet and a new record, the
      clock and the price feed. */
  datatype Env = Env(faults: Faults, walletId: Uuid, transactionId: Uuid, now: int, feed: CoinGecko.Feed)

  predicate FreshIds(env: Env) {
    env.walletId != NilId && env.transactionId != NilId
  }

  /** The record of this request would be stored: no database error and an
      ID not yet taken. */
  predicate AppendSucceeds(log: seq<Transaction>, env: Env) {
    !env.faults.createTransaction && !TransactionRepo.HasId(log, env.transactionId)
  }

  /** The wallet table, the transaction log with the store's clock, the
      Redis keyspace and the scope events so far. */
  datatype LedgerState = LedgerState(
    wallets: seq<Wallet>,
    log: seq<Transaction>,
    clock: nat,
    redis: CoinGecko.Redis,
    events: seq<ScopeEvent>)

  /** The event a request's scope ends with: a commit error is the only
      error returned after `Commit` rather than after `Rollback`. */
  function Closing(err: Option<Error>): ScopeEvent {
    if err.Some? && err.value != StorageFailure(CommitScope) then RolledBack else Committed
  }

  // ---------------------------------------------------------------------
  // The balance books

  /** The signed effect of one record on its wallet. */
  function Delta(t: Transaction): real {
    match t.kind
    case Deposit => t.amount
    case Withdraw => -t.amount
    case Transfer => 0.0
  }

  function Contribution(t: Transaction, userId: Uuid, currency: string): real {
    if t.userId == userId && t.currency == currency then Delta(t) else 0.0
  }

  /** Deposits minus withdrawals of one (user, currency) over a log. */
  function Net(log: seq<Transaction>, userId: Uuid, currency: string): real {
    if log == [] then 0.0
    else Net(log[..|log| - 1], userId, currency) + Contribution(log[|log| - 1], userId, currency)
  }

  lemma NetAppend(log: seq<Transaction>, t: Transaction, userId: Uuid, currency: string)
    ensures Net(log + [t], userId, currency) == Net(log, userId, currency) + Contribution(t, userId, currency)
  {
    assert (log + [t])[..|log|] == log;
  }

  lemma {:induction false} NetWithoutRecords(log: seq<Transaction>, userId: Uuid, currency: string)
    requires forall j :: 0 <= j < |log| ==> !(log[j].userId == userId && log[j].currency == currency)
    ensures Net(log, userId, currency) == 0.0
  {
    if log != [] {
      NetWithoutRecords(log[..|log| - 1], userId, currency);
    }
  }

  /** What a user holds in a currency: the balance of the wallet the
      service's lookup finds, 0 when there is none. */
  function Balance(wallets: seq<Wallet>, userId: Uuid, currency: string): real {
    match WalletRepo.FirstByKey(wallets, userId, currency)
    case Some(w) => w.balance
    case None => 0.0
  }

  predicate HasWallet(wallets: seq<Wallet>, userId: Uuid, currency: string) {
    exists i :: 0 <= i < |wallets| && WalletRepo.Keyed(wallets[i], userId, currency)
  }

  predicate Solvent(wallets: seq<Wallet>) {
    forall i :: 0 <= i < |wallets| ==> wallets[i].balance >= 0.0
  }

  /** The books balance: one wallet per key under the primary key, every
      balance equal to the deposits minus the withdrawals recorded for its
      key and never negative, every record belonging to a wallet, and only
      deposits and withdrawals of positive amounts in the log. */
  ghost predicate Books(wallets: seq<Wallet>, log: seq<Transaction>) {
    && WalletRepo.PrimaryKeyed(wallets)
    && WalletRepo.OneWalletPerKey(wallets)
    && Solvent(wallets)
    && (forall i :: 0 <= i < |wallets| ==> wallets[i].balance == Net(log, wallets[i].userId, wallets[i].currency))
    && (forall j :: 0 <= j < |log| ==> HasWallet(wallets, log[j].userId, log[j].currency))
    && (forall j :: 0 <= j < |log| ==> log[j].kind != Transfer && log[j].amount > 0.0)
  }

  /** The wallet table's two keys: the primary key, and the one wallet per
      (user, currency) the service keeps. Unlike the books these survive
      every failure, as wired or under the scope (`RunKeepsKeys`). */
  ghost predicate KeysHold(wallets: seq<Wallet>) {
    WalletRepo.PrimaryKeyed(wallets) && WalletRepo.OneWalletPerKey(wallets)
  }

  /** The whole store is consistent: the books balance and the log keeps
      its primary key and its creation order. */
  ghost predicate Sound(l: LedgerState) {
    && Books(l.wallets, l.log)
    && TransactionRepo.PrimaryKeyed(l.log)
    && TransactionRepo.Chronological(l.log)
    && TransactionRepo.StampedBefore(l.log, l.clock)
  }

  /** The empty store is consistent, whatever the cache holds. */
  lemma EmptyIsSound(clock: nat, redis: CoinGecko.Redis)
    ensures Sound(LedgerState([], [], clock, redis, []))
  {
  }

  /** Under the books, what a user holds is the running sum of that user's
      deposits minus withdrawals in that currency, and never negative. */
  lemma BalanceIsNet(wallets: seq<Wallet>, log: seq<Transaction>, userId: Uuid, currency: string)
    requires Books(wallets, log)
    ensures Balance(wallets, userId, currency) == Net(log, userId, currency)
    ensures Balance(wallets, userId, currency) >= 0.0
  {
    match WalletRepo.FirstByKey(wallets, userId, currency)
    case Some(w) =>
      var k :| 0 <= k < |wallets| && wallets[k] == w;
    case None =>
      forall j | 0 <= j < |log| ensures !(log[j].userId == userId && log[j].currency == currency) {
        assert HasWallet(wallets, log[j].userId, log[j].currency);
        var i :| 0 <= i < |wallets| && WalletRepo.Keyed(wallets[i], log[j].userId, log[j].currency);
      }
      NetWithoutRecords(log, userId, currency);
  }

  /** Opening an empty wallet for a key without one keeps the books. */
  lemma OpenKeepsBooks(wallets: seq<Wallet>, log: seq<Transaction>, w: Wallet)
    requires Books(wallets, log)
    requires w.id != NilId && !WalletRepo.HasId(wallets, w.id) && w.balance == 0.0
    requires forall i :: 0 <= i < |wallets| ==> !WalletRepo.Keyed(wallets[i], w.userId, w.currency)
    ensures Books(wallets + [w], log)
  {
    forall j | 0 <= j < |log| ensures !(log[j].userId == w.userId && log[j].currency == w.currency) {
      assert HasWallet(wallets, log[j].userId, log[j].currency);
      var i :| 0 <= i < |wallets| && WalletRepo.Keyed(wallets[i], log[j].userId, log[j].currency);
    }
    NetWithoutRecords(log, w.userId, w.currency);
    var ws := wallets + [w];
    forall j | 0 <= j < |log|
      ensures HasWallet(ws, log[j].userId, log[j].currency)
    {
      assert HasWallet(wallets, log[j].userId, log[j].currency);
      var i :| 0 <= i < |wallets| && WalletRepo.Keyed(wallets[i], log[j].userId, log[j].currency);
      assert ws[i] == wallets[i];
    }
  }

  /** Under the primary key, setting the balance of wallet k's ID changes
      wallet k and nothing else. */
  lemma SetBalanceOnlyTarget(wallets: seq<Wallet>, k: nat, v: real)
    requires WalletRepo.PrimaryKeyed(wallets) && k < |wallets|
    ensures var ws := WalletRepo.SetBalance(wallets, wallets[k].id, v);
            |ws| == |wallets| &&
            forall i :: 0 <= i < |wallets| ==> ws[i] == if i == k then wallets[k].(balance := v) else wallets[i]
  {
    var ws := WalletRepo.SetBalance(wallets, wallets[k].id, v);
    forall i | 0 <= i < |wallets| && i != k ensures ws[i] == wallets[i] {
      assert WalletRepo.IdOf(wallets[i]) != WalletRepo.IdOf(wallets[k]);
    }
  }

  /** The balances after crediting wallet k with a record for its key. */
  lemma CreditBalances(wallets: seq<Wallet>, ws: seq<Wallet>, log: seq<Transaction>, k: nat, rec: Transaction)
    requires k < |wallets| == |ws|
    requires WalletRepo.OneWalletPerKey(wallets)
    requires forall i :: 0 <= i < |wallets| ==> wallets[i].balance == Net(log, wallets[i].userId, wallets[i].currency)
    requires WalletRepo.Keyed(wallets[k], rec.userId, rec.currency)
    requires forall i :: 0 <= i < |wallets| ==>
      ws[i] == if i == k then wallets[k].(balance := wallets[k].balance + Delta(rec)) else wallets[i]
    ensures forall i :: 0 <= i < |ws| ==> ws[i].balance == Net(log + [rec], ws[i].userId, ws[i].currency)
  {
    forall i | 0 <= i < |ws| ensures ws[i].balance == Net(log + [rec], ws[i].userId, ws[i].currency) {
      NetAppend(log, rec, wallets[i].userId, wallets[i].currency);
      if i != k {
        assert WalletRepo.KeyOf(wallets[i]) != WalletRepo.KeyOf(wallets[k]);
      }
    }
  }

  /** Every record still has a wallet after crediting wallet k with a record
      for its key. */
  lemma CreditOwners(wallets: seq<Wallet>, ws: seq<Wallet>, log: seq<Transaction>, k: nat, rec: Transaction)
    requires k < |wallets| == |ws|
    requires forall j :: 0 <= j < |log| ==> HasWallet(wallets, log[j].userId, log[j].currency)
    requires WalletRepo.Keyed(wallets[k], rec.userId, rec.currency)
    requires forall i :: 0 <= i < |wallets| ==> ws[i].userId == wallets[i].userId && ws[i].currency == wallets[i].currency
    ensures forall j :: 0 <= j < |log + [rec]| ==> HasWallet(ws, (log + [rec])[j].userId, (log + [rec])[j].currency)
  {
    var log' := log + [rec];
    forall j | 0 <= j < |log'|
      ensures HasWallet(ws, log'[j].userId, log'[j].currency)
    {
      if j < |log| {
        assert HasWallet(wallets, log[j].userId, log[j].currency);
        var i :| 0 <= i < |wallets| && WalletRepo.Keyed(wallets[i], log[j].userId, log[j].currency);
        assert WalletRepo.Keyed(ws[i], log'[j].userId, log'[j].currency);
      } else {
        assert WalletRepo.Keyed(ws[k], log'[j].userId, log'[j].currency);
      }
    }
  }

  /** Replacing wallet k by itself credited with the effect of a new record
      for its key, and appending that record, keeps the books. */
  lemma {:induction false} CreditedBooks(wallets: seq<Wallet>, ws: seq<Wallet>, log: seq<Transaction>, k: nat, rec: Transaction)
    requires Books(wallets, log) && k < |wallets| == |ws|
    requires WalletRepo.Keyed(wallets[k], rec.userId, rec.currency)
    requires rec.kind != Transfer && rec.amount > 0.0
    requires wallets[k].balance + Delta(rec) >= 0.0
    requires forall i :: 0 <= i < |wallets| ==>
      ws[i] == if i == k then wallets[k].(balance := wallets[k].balance + Delta(rec)) else wallets[i]
    ensures Books(ws, log + [rec])
  {
    CreditBalances(wallets, ws, log, k, rec);
    CreditOwners(wallets, ws, log, k, rec);
    WalletRepo.SameIdsKeepPrimaryKey(wallets, ws);
    WalletRepo.SameKeysKeepOneWalletPerKey(wallets, ws);
  }

  /** Setting the balance of wallet k to its old balance plus the effect of
      a new record for its key, and appending that record, keeps the books. */
  lemma {:induction false} CreditKeepsBooks(wallets: seq<Wallet>, log: seq<Transaction>, k: nat, rec: Transaction, v: real)
    requires Books(wallets, log) && k < |wallets|
    requires WalletRepo.Keyed(wallets[k], rec.userId, rec.currency)
    requires rec.kind != Transfer && rec.amount > 0.0
    requires v == wallets[k].balance + Delta(rec) && v >= 0.0
    ensures Books(WalletRepo.SetBalance(wallets, wallets[k].id, v), log + [rec])
  {
    SetBalanceOnlyTarget(wallets, k, v);
    CreditedBooks(wallets, WalletRepo.SetBalance(wallets, wallets[k].id, v), log, k, rec);
  }

  // ---------------------------------------------------------------------
  // The operations

  /** `GetOrCreateWallet` on the wallet table: the existing wallet when the
      lookup finds one, otherwise a new empty wallet inserted with the
      generated ID. Yields the wallet or the error, and the new table. */
  function GetOrCreate(rows: seq<Wallet>, userId: Uuid, currency: string, generated: Uuid,
                       findFault: bool, createFault: bool): (r: (Result<Wallet>, seq<Wallet>))
    requires generated != NilId
    ensures r.0.Ok? ==> WalletRepo.Keyed(r.0.value, userId, currency)
  {
    match WalletRepo.FindByUserIDAndCurrency(rows, userId, currency, findFault)
    case Err(e) => (Err(e), rows)
    case Ok(Some(w)) => (Ok(w), rows)
    case Ok(None) =>
      var ins := WalletRepo.Insert(rows, NewWallet(userId, currency), generated, createFault);
      if ins.1.Some? then (Err(ins.1.value), rows) else (Ok(ins.0), ins.2)
  }

  /** The ways out of find-or-create: a lookup error; the existing wallet,
      unchanged and with nothing created; or a new empty wallet with the
      generated ID, unless the insert fails. */
  lemma GetOrCreateCases(rows: seq<Wallet>, userId: Uuid, currency: string, generated: Uuid,
                         findFault: bool, createFault: bool)
    requires generated != NilId
    ensures var r := GetOrCreate(rows, userId, currency, generated, findFault, createFault);
            && (findFault ==> r == (Err(StorageFailure(SelectWallet)), rows))
            && (!findFault && WalletRepo.FirstByKey(rows, userId, currency).Some? ==>
                  r == (Ok(WalletRepo.FirstByKey(rows, userId, currency).value), rows))
            && (!findFault && WalletRepo.FirstByKey(rows, userId, currency).None? ==>
                  if !createFault && !WalletRepo.HasId(rows, generated)
                  then r == (Ok(Wallet(generated, userId, currency, 0.0)), rows + [Wallet(generated, userId, currency, 0.0)])
                  else r == (Err(StorageFailure(InsertWallet)), rows))
            && (r.0.Ok? ==> r.0.value in r.1)
  {
  }

  /** Find-or-create keeps the primary key and one wallet per key: it
      inserts only for a key without a wallet. */
  lemma GetOrCreateKeepsKeys(rows: seq<Wallet>, userId: Uuid, currency: string, generated: Uuid,
                             findFault: bool, createFault: bool)
    requires generated != NilId
    requires WalletRepo.PrimaryKeyed(rows) && WalletRepo.OneWalletPerKey(rows)
    ensures var r := GetOrCreate(rows, userId, currency, generated, findFault, createFault);
            WalletRepo.PrimaryKeyed(r.1) && WalletRepo.OneWalletPerKey(r.1)
  {
    if !findFault && WalletRepo.FirstByKey(rows, userId, currency).None? {
      WalletRepo.InsertKeepsPrimaryKey(rows, NewWallet(userId, currency), generated, createFault);
    }
  }

  /** Under the books, find-or-create keeps the books: a new wallet is empty
      and its key has no records yet. */
  lemma GetOrCreateKeepsBooks(rows: seq<Wallet>, log: seq<Transaction>, userId: Uuid, currency: string,
                              generated: Uuid, findFault: bool, createFault: bool)
    requires generated != NilId && Books(rows, log)
    ensures Books(GetOrCreate(rows, userId, currency, generated, findFault, createFault).1, log)
  {
    if !findFault && WalletRepo.FirstByKey(rows, userId, currency).None? && !createFault &&
       !WalletRepo.HasId(rows, generated) {
      OpenKeepsBooks(rows, log, Wallet(generated, userId, currency, 0.0));
    }
  }

  /** The index of the wallet a successful find-or-create yields. */
  lemma GetOrCreateFound(rows: seq<Wallet>, userId: Uuid, currency: string, generated: Uuid,
                         findFault: bool, createFault: bool) returns (k: nat)
    requires generated != NilId
    requires GetOrCreate(rows, userId, currency, generated, findFault, createFault).0.Ok?
    ensures var g := GetOrCreate(rows, userId, currency, generated, findFault, createFault);
            k < |g.1| && g.1[k] == g.0.value && WalletRepo.Keyed(g.0.value, userId, currency)
  {
    var g := GetOrCreate(rows, userId, currency, generated, findFault, createFault);
    k :| 0 <= k < |g.1| && g.1[k] == g.0.value;
  }

  function Begin(l: LedgerState): LedgerState {
    l.(events := l.events + [Began])
  }

  /** Opening the scope changes nothing but the events. */
  lemma BeginKeepsSound(l: LedgerState)
    requires Sound(l)
    ensures Begin(l) == LedgerState(l.wallets, l.log, l.clock, l.redis, l.events + [Began])
    ensures Sound(Begin(l))
  {
  }

  /** `tx.Rollback()`: restores the snapshot taken at `Begin` only when the
      repositories write through the scope. */
  function Rollback(w: Wiring, snapWallets: seq<Wallet>, snapLog: seq<Transaction>, s: LedgerState)
    : (r: LedgerState)
    ensures r.events == s.events + [RolledBack] && r.clock == s.clock && r.redis == s.redis
    ensures w.repositoriesInScope ==> r.wallets == snapWallets && r.log == snapLog
    ensures !w.repositoriesInScope ==> r.wallets == s.wallets && r.log == s.log
  {
    var s' := s.(events := s.events + [RolledBack]);
    if w.repositoriesInScope then s'.(wallets := snapWallets, log := snapLog) else s'
  }

  /** `tx.Commit()`: keeps the state; a commit error is returned, and under
      the scope it discards the scope's writes. */
  function Commit(w: Wiring, snapWallets: seq<Wallet>, snapLog: seq<Transaction>, s: LedgerState, fault: bool)
    : (r: (Option<Error>, LedgerState))
    ensures r.0.Some? <==> fault
    ensures fault ==> r.0 == Some(StorageFailure(CommitScope))
    ensures r.1.events == s.events + [Committed] && r.1.clock == s.clock && r.1.redis == s.redis
    ensures !fault || !w.repositoriesInScope ==> r.1.wallets == s.wallets && r.1.log == s.log
    ensures fault && w.repositoriesInScope ==> r.1.wallets == snapWallets && r.1.log == snapLog
  {
    var s' := s.(events := s.events + [Committed]);
    if !fault then (None, s')
    else (Some(StorageFailure(CommitScope)), if w.repositoriesInScope then s'.(wallets := snapWallets, log := snapLog) else s')
  }

  /** The price recorded with an entry: the unit price, or 0 when it could
      not be determined. */
  function PriceAt(price: Result<real>): (p: real)
    ensures price.Err? ==> p == 0.0
    ensures price.Ok? ==> p == price.value
  {
    if price.Ok? then price.value else 0.0
  }

  /** The record Deposit or Withdraw hands to the repository. */
  function Entry(userId: Uuid, kind: TransactionType, currency: string, amount: real, price: Result<real>): Transaction {
    Transaction(NilId, userId, kind, currency, amount, PriceAt(price), 0)
  }

  /** The record handed to the repository carries the request's user, kind,
      currency and amount and the looked-up price, 0 when the lookup
      failed; its ID and creation stamp are left to the hook and the store. */
  lemma EntryFields(userId: Uuid, kind: TransactionType, currency: string, amount: real, price: Result<real>)
    ensures var r := Entry(userId, kind, currency, amount, price);
            r.id == NilId && r.createdAt == 0 &&
            r.userId == userId && r.kind == kind && r.currency == currency && r.amount == amount &&
            r.priceAt == if price.Ok? then price.value else 0.0
  {
  }

  /** The steps Deposit and Withdraw share once the new balance is known:
      write it, append the record priced by the lookup `price` made in
      between (a failed lookup is absorbed as a price of 0; the cache ends
      as the lookup left it), commit. */
  function Settle(w: Wiring, l: LedgerState, ws: seq<Wallet>, walletId: Uuid, newBalance: real,
                  kind: TransactionType, userId: Uuid, currency: string, amount: real,
                  price: (Result<real>, CoinGecko.Redis), env: Env)
    : (r: (Option<Error>, LedgerState))
    requires env.transactionId != NilId
    ensures r.1.events == l.events + [Began, Closing(r.0)]
    ensures r.1.clock >= l.clock
    ensures r.0.None? <==>
      !env.faults.updateBalance && AppendSucceeds(l.log, env) && !env.faults.commit
    // under the scope an error leaves the state the request began with
    ensures w.repositoriesInScope && r.0.Some? ==> r.1.wallets == l.wallets && r.1.log == l.log
  {
    var s := Begin(l).(wallets := ws);
    if env.faults.updateBalance then (Some(StorageFailure(UpdateWallet)), Rollback(w, l.wallets, l.log, s))
    else Record(w, l, WalletRepo.SetBalance(ws, walletId, newBalance), kind, userId, currency, amount, price, env)
  }

  /** The last steps of the shared tail, once the balance is written
      (`written` is the wallet table then): append the priced record, then
      commit, or roll back when the append fails. */
  function Record(w: Wiring, l: LedgerState, written: seq<Wallet>, kind: TransactionType, userId: Uuid,
                  currency: string, amount: real, price: (Result<real>, CoinGecko.Redis), env: Env)
    : (r: (Option<Error>, LedgerState))
    requires env.transactionId != NilId
    ensures r.0.None? <==> AppendSucceeds(l.log, env) && !env.faults.commit
    ensures !AppendSucceeds(l.log, env) ==> r.0 == Some(StorageFailure(InsertTransaction))
  {
    var s3 := Begin(l).(wallets := written, redis := price.1);
    var a := TransactionRepo.Append(l.log, l.clock, Entry(userId, kind, currency, amount, price.0),
                                    env.transactionId, env.faults.createTransaction);
    if a.1.Some? then (Some(a.1.value), Rollback(w, l.wallets, l.log, s3))
    else Commit(w, l.wallets, l.log, s3.(log := a.2, clock := a.3), env.faults.commit)
  }

  /** The unit price of `currency` looked up against the cache of `l`. */
  function Lookup(w: Wiring, l: LedgerState, currency: string, env: Env): (Result<real>, CoinGecko.Redis) {
    CoinGecko.PriceLookup(l.redis, env.now, env.faults.readCache, w.cacheTtl, w.apiUrl, currency, env.feed)
  }

  /** `Deposit`, given what its price lookup yields (the price or the
      error, and the cache it leaves). The lookup reads only the cache,
      which nothing before it changes, so `Deposit` below is this applied
      to `Lookup`, and every property stated here holds whatever the price
      feed says. */
  function DepositPriced(w: Wiring, l: LedgerState, userId: Uuid, currency: string, amount: real,
                         price: (Result<real>, CoinGecko.Redis), env: Env)
    : (r: (Option<Error>, LedgerState))
    requires FreshIds(env)
    // an amount that is not positive is rejected before the scope opens
    ensures amount <= 0.0 ==> r == (Some(InvalidAmount), l)
    // otherwise the scope opens and every error but a commit error rolls it back
    ensures amount > 0.0 ==> r.1.events == l.events + [Began, Closing(r.0)]
    ensures r.1.clock >= l.clock
  {
    if amount <= 0.0 then (Some(InvalidAmount), l)
    else
      var s := Begin(l);
      var g := GetOrCreate(l.wallets, userId, currency, env.walletId, env.faults.findWallet, env.faults.createWallet);
      var s1 := s.(wallets := g.1);
      if g.0.Err? then (Some(g.0.error), Rollback(w, l.wallets, l.log, s1))
      else Settle(w, l, g.1, g.0.value.id, g.0.value.balance + amount,
                  TransactionType.Deposit, userId, currency, amount, price, env)
  }

  /** `Deposit`. */
  function Deposit(w: Wiring, l: LedgerState, userId: Uuid, currency: string, amount: real, env: Env)
    : (r: (Option<Error>, LedgerState))
    requires FreshIds(env)
    ensures amount <= 0.0 ==> r == (Some(InvalidAmount), l)
    ensures amount > 0.0 ==> r.1.events == l.events + [Began, Closing(r.0)]
  {
    DepositPriced(w, l, userId, currency, amount, Lookup(w, l, currency, env), env)
  }

  /** `Withdraw`, given what its price lookup yields. */
  function WithdrawPriced(w: Wiring, l: LedgerState, userId: Uuid, currency: string, amount: real,
                          price: (Result<real>, CoinGecko.Redis), env: Env)
    : (r: (Option<Error>, LedgerState))
    requires env.transactionId != NilId
    ensures amount <= 0.0 ==> r == (Some(InvalidAmount), l)
    ensures amount > 0.0 ==> r.1.events == l.events + [Began, Closing(r.0)]
    ensures r.1.clock >= l.clock
  {
    if amount <= 0.0 then (Some(InvalidAmount), l)
    else
      var s := Begin(l);
      match WalletRepo.FindByUserIDAndCurrency(l.wallets, userId, currency, env.faults.findWallet)
      case Err(e) => (Some(e), Rollback(w, l.wallets, l.log, s))
      case Ok(None) => (Some(WalletNotFound), Rollback(w, l.wallets, l.log, s))
      case Ok(Some(wallet)) =>
        if wallet.balance < amount then (Some(InsufficientBalance), Rollback(w, l.wallets, l.log, s))
        else Settle(w, l, l.wallets, wallet.id, wallet.balance - amount,
                    TransactionType.Withdraw, userId, currency, amount, price, env)
  }

  /** `Withdraw`. */
  function Withdraw(w: Wiring, l: LedgerState, userId: Uuid, currency: string, amount: real, env: Env)
    : (r: (Option<Error>, LedgerState))
    requires env.transactionId != NilId
    ensures amount <= 0.0 ==> r == (Some(InvalidAmount), l)
    ensures amount > 0.0 ==> r.1.events == l.events + [Began, Closing(r.0)]
  {
    WithdrawPriced(w, l, userId, currency, amount, Lookup(w, l, currency, env), env)
  }

  // ---------------------------------------------------------------------
  // What Deposit and Withdraw guarantee, for every outcome of the lookup

  /** The record a successful Deposit or Withdraw appends: the generated
      ID, the request's user, currency and amount, the looked-up price (0
      when the lookup failed) and the store's clock. */
  function Stamped(l: LedgerState, userId: Uuid, kind: TransactionType, currency: string,
                   amount: real, price: (Result<real>, CoinGecko.Redis), env: Env): Transaction {
    Transaction(env.transactionId, userId, kind, currency, amount, PriceAt(price.0), l.clock)
  }

  /** When Deposit succeeds: the conditions mention the database and the
      IDs but not the price, so a failed price lookup never aborts a
      deposit. A success appends exactly the deposit record and leaves the
      cache as the price lookup left it. */
  lemma DepositOutcome(w: Wiring, l: LedgerState, userId: Uuid, currency: string, amount: real,
                       price: (Result<real>, CoinGecko.Redis), env: Env)
    requires FreshIds(env)
    ensures var r := DepositPriced(w, l, userId, currency, amount, price, env);
            (r.0.None? <==>
              amount > 0.0 && !env.faults.findWallet &&
              (WalletRepo.FirstByKey(l.wallets, userId, currency).Some? ||
               (!env.faults.createWallet && !WalletRepo.HasId(l.wallets, env.walletId))) &&
              !env.faults.updateBalance && !env.faults.createTransaction &&
              !TransactionRepo.HasId(l.log, env.transactionId) && !env.faults.commit) &&
            (r.0.None? ==>
              r.1.log == l.log + [Stamped(l, userId, TransactionType.Deposit, currency, amount, price, env)] &&
              r.1.clock == l.clock + 1 &&
              r.1.redis == price.1)
  {
  }

  /** When Withdraw succeeds: a wallet with at least the amount, and no
      database error; again the price plays no part. */
  lemma WithdrawOutcome(w: Wiring, l: LedgerState, userId: Uuid, currency: string, amount: real,
                        price: (Result<real>, CoinGecko.Redis), env: Env)
    requires env.transactionId != NilId
    ensures var r := WithdrawPriced(w, l, userId, currency, amount, price, env);
            var found := WalletRepo.FirstByKey(l.wallets, userId, currency);
            (r.0.None? <==>
              amount > 0.0 && !env.faults.findWallet && found.Some? && found.value.balance >= amount &&
              !env.faults.updateBalance && !env.faults.createTransaction &&
              !TransactionRepo.HasId(l.log, env.transactionId) && !env.faults.commit) &&
            (r.0.None? ==>
              r.1.log == l.log + [Stamped(l, userId, TransactionType.Withdraw, currency, amount, price, env)] &&
              r.1.clock == l.clock + 1 &&
              r.1.redis == price.1)
  {
  }

  /** History is append-only: whatever happens, Deposit leaves the log as
      it was or with the stamped record added, as wired even on a commit
      error; under the scope only a success adds it. */
  lemma DepositLog(w: Wiring, l: LedgerState, userId: Uuid, currency: string, amount: real,
                   price: (Result<real>, CoinGecko.Redis), env: Env)
    requires FreshIds(env)
    ensures var r := DepositPriced(w, l, userId, currency, amount, price, env);
            var rec := Stamped(l, userId, TransactionType.Deposit, currency, amount, price, env);
            (r.1.log == l.log || r.1.log == l.log + [rec]) &&
            (w.repositoriesInScope && r.0.Some? ==> r.1.log == l.log)
  {
  }

  lemma WithdrawLog(w: Wiring, l: LedgerState, userId: Uuid, currency: string, amount: real,
                    price: (Result<real>, CoinGecko.Redis), env: Env)
    requires env.transactionId != NilId
    ensures var r := WithdrawPriced(w, l, userId, currency, amount, price, env);
            var rec := Stamped(l, userId, TransactionType.Withdraw, currency, amount, price, env);
            (r.1.log == l.log || r.1.log == l.log + [rec]) &&
            (w.repositoriesInScope && r.0.Some? ==> r.1.log == l.log)
  {
  }

  /** A missing wallet and a short balance are refused, whatever the
      wiring, without touching the wallets, the log or the cache. */
  lemma WithdrawRefusals(w: Wiring, l: LedgerState, userId: Uuid, currency: string, amount: real,
                         price: (Result<real>, CoinGecko.Redis), env: Env)
    requires env.transactionId != NilId
    ensures var r := WithdrawPriced(w, l, userId, currency, amount, price, env);
            var found := WalletRepo.FirstByKey(l.wallets, userId, currency);
            (r.0 == Some(WalletNotFound) <==> amount > 0.0 && !env.faults.findWallet && found.None?) &&
            (r.0 == Some(InsufficientBalance) <==>
               amount > 0.0 && !env.faults.findWallet && found.Some? && found.value.balance < amount) &&
            (r.0 == Some(WalletNotFound) || r.0 == Some(InsufficientBalance) ==>
               r.1 == l.(events := l.events + [Began, RolledBack]))
  {
  }

  /** Under the scope, Deposit and Withdraw are all or nothing: any error
      leaves the wallets and the log exactly as they were. */
  lemma AtomicWhenScoped(w: Wiring, l: LedgerState, userId: Uuid, currency: string, amount: real,
                         price: (Result<real>, CoinGecko.Redis), env: Env)
    requires w.repositoriesInScope && FreshIds(env)
    ensures var r := DepositPriced(w, l, userId, currency, amount, price, env);
            r.0.Some? ==> r.1.wallets == l.wallets && r.1.log == l.log
    ensures var r := WithdrawPriced(w, l, userId, currency, amount, price, env);
            r.0.Some? ==> r.1.wallets == l.wallets && r.1.log == l.log
  {
  }

  /** The shared tail's three ways out. */
  lemma SettleCases(w: Wiring, l: LedgerState, ws: seq<Wallet>, walletId: Uuid, nb: real,
                    kind: TransactionType, userId: Uuid, currency: string, amount: real,
                    price: (Result<real>, CoinGecko.Redis), env: Env)
    requires env.transactionId != NilId
    ensures var r := Settle(w, l, ws, walletId, nb, kind, userId, currency, amount, price, env);
            var s := Begin(l).(wallets := ws);
            var ws' := WalletRepo.SetBalance(ws, walletId, nb);
            (env.faults.updateBalance ==> r.1 == Rollback(w, l.wallets, l.log, s)) &&
            (!env.faults.updateBalance && !AppendSucceeds(l.log, env) ==>
               r.1 == Rollback(w, l.wallets, l.log, s.(wallets := ws', redis := price.1))) &&
            (!env.faults.updateBalance && AppendSucceeds(l.log, env) ==>
               r == Commit(w, l.wallets, l.log,
                      LedgerState(ws', l.log + [Stamped(l, userId, kind, currency, amount, price, env)],
                                  l.clock + 1, price.1, l.events + [Began]), env.faults.commit))
  {
  }

  /** Crediting wallet k with a stamped record for its key keeps a
      consistent state consistent. */
  lemma CreditKeepsSound(l: LedgerState, ws: seq<Wallet>, k: nat, walletId: Uuid, rec: Transaction, nb: real,
                         redis: CoinGecko.Redis, events: seq<ScopeEvent>)
    requires Sound(l) && Books(ws, l.log)
    requires k < |ws| && walletId == ws[k].id && WalletRepo.Keyed(ws[k], rec.userId, rec.currency)
    requires rec.kind != Transfer && rec.amount > 0.0
    requires rec.id != NilId && !TransactionRepo.HasId(l.log, rec.id) && rec.createdAt == l.clock
    requires nb == ws[k].balance + Delta(rec) >= 0.0
    ensures Sound(LedgerState(WalletRepo.SetBalance(ws, walletId, nb), l.log + [rec], l.clock + 1, redis, events))
  {
    CreditKeepsBooks(ws, l.log, k, rec, nb);
    TransactionRepo.RecordKeepsShape(l.log, l.clock, rec);
  }

  /** A rollback keeps the store consistent: under the scope it restores a
      consistent snapshot, as wired it keeps a consistent state. */
  lemma RollbackKeepsSound(w: Wiring, snapWallets: seq<Wallet>, snapLog: seq<Transaction>, x: LedgerState)
    requires w.repositoriesInScope ==>
      Books(snapWallets, snapLog) && TransactionRepo.PrimaryKeyed(snapLog) &&
      TransactionRepo.Chronological(snapLog) && TransactionRepo.StampedBefore(snapLog, x.clock)
    requires !w.repositoriesInScope ==> Sound(x)
    ensures Sound(Rollback(w, snapWallets, snapLog, x))
  {
  }

  /** Committing keeps a consistent state; a failed commit under the scope
      falls back to a consistent snapshot stamped before the clock. */
  lemma CommitKeepsSound(w: Wiring, snapWallets: seq<Wallet>, snapLog: seq<Transaction>, x: LedgerState, fault: bool)
    requires Sound(x) && Books(snapWallets, snapLog)
    requires TransactionRepo.PrimaryKeyed(snapLog) && TransactionRepo.Chronological(snapLog)
    requires TransactionRepo.StampedBefore(snapLog, x.clock)
    ensures Sound(Commit(w, snapWallets, snapLog, x, fault).1)
  {
  }

  /** The shared tail keeps the store consistent when it writes wallet k
      of a consistent state the balance its record accounts for, whatever
      the price found. */
  lemma SettleKeepsSound(w: Wiring, l: LedgerState, ws: seq<Wallet>, k: nat, walletId: Uuid, nb: real,
                         kind: TransactionType, userId: Uuid, currency: string, amount: real,
                         price: (Result<real>, CoinGecko.Redis), env: Env)
    requires env.transactionId != NilId
    requires Sound(l) && Books(ws, l.log)
    requires w.repositoriesInScope || AppendSucceeds(l.log, env)
    requires k < |ws| && walletId == ws[k].id && WalletRepo.Keyed(ws[k], userId, currency)
    requires kind != Transfer && amount > 0.0
    requires nb == ws[k].balance + Delta(Entry(userId, kind, currency, amount, price.0)) >= 0.0
    ensures Sound(Settle(w, l, ws, walletId, nb, kind, userId, currency, amount, price, env).1)
  {
    SettleCases(w, l, ws, walletId, nb, kind, userId, currency, amount, price, env);
    var s := Begin(l).(wallets := ws);
    if env.faults.updateBalance {
      RollbackKeepsSound(w, l.wallets, l.log, s);
    } else if !AppendSucceeds(l.log, env) {
      RollbackKeepsSound(w, l.wallets, l.log, s.(wallets := WalletRepo.SetBalance(ws, walletId, nb), redis := price.1));
    } else {
      var rec := Stamped(l, userId, kind, currency, amount, price, env);
      CreditKeepsSound(l, ws, k, walletId, rec, nb, price.1, l.events + [Began]);
      CommitKeepsSound(w, l.wallets, l.log,
                       LedgerState(WalletRepo.SetBalance(ws, walletId, nb), l.log + [rec], l.clock + 1, price.1,
                                   l.events + [Began]),
                       env.faults.commit);
    }
  }

  /** A deposit whose find-or-create fails rolls the scope back and
      returns that error. */
  lemma DepositRollsBack(w: Wiring, l: LedgerState, userId: Uuid, currency: string, amount: real,
                         price: (Result<real>, CoinGecko.Redis), env: Env)
    requires FreshIds(env) && amount > 0.0
    requires GetOrCreate(l.wallets, userId, currency, env.walletId, env.faults.findWallet, env.faults.createWallet).0.Err?
    ensures var g := GetOrCreate(l.wallets, userId, currency, env.walletId, env.faults.findWallet, env.faults.createWallet);
            DepositPriced(w, l, userId, currency, amount, price, env) ==
            (Some(g.0.error), Rollback(w, l.wallets, l.log, Begin(l).(wallets := g.1)))
  {
  }

  /** A deposit that finds or creates its wallet goes on to the shared tail
      with that wallet's balance raised by the amount. */
  lemma DepositSettles(w: Wiring, l: LedgerState, userId: Uuid, currency: string, amount: real,
                       price: (Result<real>, CoinGecko.Redis), env: Env)
    requires FreshIds(env) && amount > 0.0
    requires GetOrCreate(l.wallets, userId, currency, env.walletId, env.faults.findWallet, env.faults.createWallet).0.Ok?
    ensures var g := GetOrCreate(l.wallets, userId, currency, env.walletId, env.faults.findWallet, env.faults.createWallet);
            DepositPriced(w, l, userId, currency, amount, price, env) ==
            Settle(w, l, g.1, g.0.value.id, g.0.value.balance + amount,
                   TransactionType.Deposit, userId, currency, amount, price, env)
  {
  }

  /** `DepositSettles` for a caller that holds the found wallet, the table
      find-or-create left and the outcome of the shared tail. */
  lemma DepositThrough(w: Wiring, l: LedgerState, userId: Uuid, currency: string, amount: real,
                       price: (Result<real>, CoinGecko.Redis), env: Env, found: Wallet, ws: seq<Wallet>)
    requires FreshIds(env) && amount > 0.0
    requires GetOrCreate(l.wallets, userId, currency, env.walletId, env.faults.findWallet, env.faults.createWallet) == (Ok(found), ws)
    ensures DepositPriced(w, l, userId, currency, amount, price, env) ==
            Settle(w, l, ws, found.id, found.balance + amount, TransactionType.Deposit, userId, currency, amount, price, env)
  {
    DepositSettles(w, l, userId, currency, amount, price, env);
  }

  /** Deposit keeps the store consistent, under the scope whatever fails,
      and as wired whenever the append succeeds. */
  lemma DepositKeepsSound(w: Wiring, l: LedgerState, userId: Uuid, currency: string, amount: real,
                          price: (Result<real>, CoinGecko.Redis), env: Env)
    requires Sound(l) && FreshIds(env)
    requires w.repositoriesInScope || AppendSucceeds(l.log, env)
    ensures Sound(DepositPriced(w, l, userId, currency, amount, price, env).1)
  {
    if amount > 0.0 {
      var g := GetOrCreate(l.wallets, userId, currency, env.walletId, env.faults.findWallet, env.faults.createWallet);
      if g.0.Err? {
        DepositRollsBack(w, l, userId, currency, amount, price, env);
        RollbackKeepsSound(w, l.wallets, l.log, Begin(l).(wallets := g.1));
      } else {
        DepositSettlesKeepsSound(w, l, userId, currency, amount, price, env);
      }
    }
  }

  /** The case of a wallet found or created. */
  lemma DepositSettlesKeepsSound(w: Wiring, l: LedgerState, userId: Uuid, currency: string, amount: real,
                                 price: (Result<real>, CoinGecko.Redis), env: Env)
    requires Sound(l) && FreshIds(env) && amount > 0.0
    requires w.repositoriesInScope || AppendSucceeds(l.log, env)
    requires GetOrCreate(l.wallets, userId, currency, env.walletId, env.faults.findWallet, env.faults.createWallet).0.Ok?
    ensures Sound(DepositPriced(w, l, userId, currency, amount, price, env).1)
  {
    DepositSettles(w, l, userId, currency, amount, price, env);
    var g := GetOrCreate(l.wallets, userId, currency, env.walletId, env.faults.findWallet, env.faults.createWallet);
    GetOrCreateKeepsBooks(l.wallets, l.log, userId, currency, env.walletId, env.faults.findWallet, env.faults.createWallet);
    var k := GetOrCreateFound(l.wallets, userId, currency, env.walletId, env.faults.findWallet, env.faults.createWallet);
    DepositAtKeepsSound(w, l, g.1, k, g.0.value, userId, currency, amount, price, env,
                        DepositPriced(w, l, userId, currency, amount, price, env));
  }

  /** Crediting wallet k of the table `ws` the find-or-create step left
      keeps the store consistent; `r` is what the shared tail yields. */
  lemma DepositAtKeepsSound(w: Wiring, l: LedgerState, ws: seq<Wallet>, k: nat, found: Wallet, userId: Uuid,
                            currency: string, amount: real, price: (Result<real>, CoinGecko.Redis), env: Env,
                            r: (Option<Error>, LedgerState))
    requires Sound(l) && Books(ws, l.log) && FreshIds(env) && amount > 0.0
    requires w.repositoriesInScope || AppendSucceeds(l.log, env)
    requires k < |ws| && ws[k] == found && WalletRepo.Keyed(found, userId, currency)
    requires r == Settle(w, l, ws, found.id, found.balance + amount,
                         TransactionType.Deposit, userId, currency, amount, price, env)
    ensures Sound(r.1)
  {
    assert Delta(Entry(userId, TransactionType.Deposit, currency, amount, price.0)) == amount;
    SettleKeepsSound(w, l, ws, k, found.id, found.balance + amount,
                     TransactionType.Deposit, userId, currency, amount, price, env);
  }

  /** The lookup finds a wallet that covers the amount. */
  predicate WithdrawProceeds(l: LedgerState, userId: Uuid, currency: string, amount: real, env: Env) {
    var found := WalletRepo.FindByUserIDAndCurrency(l.wallets, userId, currency, env.faults.findWallet);
    found.Ok? && found.value.Some? && found.value.value.balance >= amount
  }

  /** A withdrawal the lookup does not let through rolls the scope back. */
  lemma WithdrawRollsBack(w: Wiring, l: LedgerState, userId: Uuid, currency: string, amount: real,
                          price: (Result<real>, CoinGecko.Redis), env: Env)
    requires env.transactionId != NilId && amount > 0.0
    requires !WithdrawProceeds(l, userId, currency, amount, env)
    ensures WithdrawPriced(w, l, userId, currency, amount, price, env).1 == Rollback(w, l.wallets, l.log, Begin(l))
  {
  }

  /** The index of the wallet a successful lookup finds. */
  lemma FoundAt(rows: seq<Wallet>, userId: Uuid, currency: string, fault: bool) returns (k: nat)
    requires WalletRepo.FindByUserIDAndCurrency(rows, userId, currency, fault).Ok?
    requires WalletRepo.FindByUserIDAndCurrency(rows, userId, currency, fault).value.Some?
    ensures k < |rows| && WalletRepo.FindByUserIDAndCurrency(rows, userId, currency, fault) == Ok(Some(rows[k]))
    ensures WalletRepo.Keyed(rows[k], userId, currency)
  {
    k :| 0 <= k < |rows| && rows[k] == WalletRepo.FindByUserIDAndCurrency(rows, userId, currency, fault).value.value;
  }

  /** Withdraw keeps the store consistent on the same terms; in particular
      no balance goes below zero. */
  lemma WithdrawKeepsSound(w: Wiring, l: LedgerState, userId: Uuid, currency: string, amount: real,
                           price: (Result<real>, CoinGecko.Redis), env: Env)
    requires Sound(l) && env.transactionId != NilId
    requires w.repositoriesInScope || AppendSucceeds(l.log, env)
    ensures Sound(WithdrawPriced(w, l, userId, currency, amount, price, env).1)
  {
    if amount > 0.0 {
      if WithdrawProceeds(l, userId, currency, amount, env) {
        WithdrawSettlesKeepsSound(w, l, userId, currency, amount, price, env);
      } else {
        WithdrawRollsBack(w, l, userId, currency, amount, price, env);
        RollbackKeepsSound(w, l.wallets, l.log, Begin(l));
      }
    }
  }

  /** The case of a wallet that covers the amount. */
  lemma WithdrawSettlesKeepsSound(w: Wiring, l: LedgerState, userId: Uuid, currency: string, amount: real,
                                  price: (Result<real>, CoinGecko.Redis), env: Env)
    requires Sound(l) && env.transactionId != NilId && amount > 0.0
    requires w.repositoriesInScope || AppendSucceeds(l.log, env)
    requires WithdrawProceeds(l, userId, currency, amount, env)
    ensures Sound(WithdrawPriced(w, l, userId, currency, amount, price, env).1)
  {
    var k := FoundAt(l.wallets, userId, currency, env.faults.findWallet);
    WithdrawSettles(w, l, userId, currency, amount, price, env, k);
    WithdrawAtKeepsSound(w, l, userId, currency, amount, price, env, k);
  }

  /** Debiting wallet k, which covers the amount, keeps the store
      consistent. */
  lemma WithdrawAtKeepsSound(w: Wiring, l: LedgerState, userId: Uuid, currency: string, amount: real,
                             price: (Result<real>, CoinGecko.Redis), env: Env, k: nat)
    requires Sound(l) && env.transactionId != NilId && amount > 0.0
    requires w.repositoriesInScope || AppendSucceeds(l.log, env)
    requires k < |l.wallets| && WalletRepo.Keyed(l.wallets[k], userId, currency) && l.wallets[k].balance >= amount
    ensures Sound(Settle(w, l, l.wallets, l.wallets[k].id, l.wallets[k].balance - amount,
                         TransactionType.Withdraw, userId, currency, amount, price, env).1)
  {
    assert Delta(Entry(userId, TransactionType.Withdraw, currency, amount, price.0)) == -amount;
    SettleKeepsSound(w, l, l.wallets, k, l.wallets[k].id, l.wallets[k].balance - amount,
                     TransactionType.Withdraw, userId, currency, amount, price, env);
  }

  /** A withdrawal the found wallet k covers goes on to the shared tail. */
  lemma WithdrawSettles(w: Wiring, l: LedgerState, userId: Uuid, currency: string, amount: real,
                        price: (Result<real>, CoinGecko.Redis), env: Env, k: nat)
    requires env.transactionId != NilId && amount > 0.0 && k < |l.wallets|
    requires WalletRepo.FindByUserIDAndCurrency(l.wallets, userId, currency, env.faults.findWallet) == Ok(Some(l.wallets[k]))
    requires l.wallets[k].balance >= amount
    ensures WithdrawPriced(w, l, userId, currency, amount, price, env) ==
            Settle(w, l, l.wallets, l.wallets[k].id, l.wallets[k].balance - amount,
                   TransactionType.Withdraw, userId, currency, amount, price, env)
  {
  }

  /** `WithdrawSettles` for a caller that holds the found wallet and the
      outcome of the shared tail. */
  lemma WithdrawThrough(w: Wiring, l: LedgerState, userId: Uuid, currency: string, amount: real,
                        price: (Result<real>, CoinGecko.Redis), env: Env, found: Wallet,
                        r: (Option<Error>, LedgerState))
    requires env.transactionId != NilId && amount > 0.0
    requires WalletRepo.FindByUserIDAndCurrency(l.wallets, userId, currency, env.faults.findWallet) == Ok(Some(found))
    requires found.balance >= amount
    requires r == Settle(w, l, l.wallets, found.id, found.balance - amount, TransactionType.Withdraw, userId, currency, amount, price, env)
    ensures WithdrawPriced(w, l, userId, currency, amount, price, env) == r
  {
  }

  /** Under the books, the state's balances are the net of its log. */
  lemma SoundBalance(l: LedgerState, userId: Uuid, currency: string)
    ensures Sound(l) ==> Balance(l.wallets, userId, currency) == Net(l.log, userId, currency)
  {
    if Sound(l) {
      BalanceIsNet(l.wallets, l.log, userId, currency);
    }
  }

  /** A balance changes exactly when a record is appended, and by that
      record's amount: a deposit credits the depositor's (user, currency)
      and no other. */
  lemma DepositCredits(w: Wiring, l: LedgerState, userId: Uuid, currency: string, amount: real,
                       price: (Result<real>, CoinGecko.Redis), env: Env, u: Uuid, c: string)
    requires Sound(l) && FreshIds(env)
    requires w.repositoriesInScope || AppendSucceeds(l.log, env)
    ensures var r := DepositPriced(w, l, userId, currency, amount, price, env);
            (r.0.None? ==> r.1.log != l.log) &&
            Balance(r.1.wallets, u, c) == Balance(l.wallets, u, c) +
              (if r.1.log == l.log || u != userId || c != currency then 0.0 else amount)
  {
    var r := DepositPriced(w, l, userId, currency, amount, price, env);
    var rec := Stamped(l, userId, TransactionType.Deposit, currency, amount, price, env);
    DepositLog(w, l, userId, currency, amount, price, env);
    DepositOutcome(w, l, userId, currency, amount, price, env);
    DepositKeepsSound(w, l, userId, currency, amount, price, env);
    BooksMove(l, r.1, rec, u, c);
  }

  /** A withdrawal debits the withdrawer's (user, currency) by the amount
      exactly when its record is appended, and no other balance moves. */
  lemma WithdrawDebits(w: Wiring, l: LedgerState, userId: Uuid, currency: string, amount: real,
                       price: (Result<real>, CoinGecko.Redis), env: Env, u: Uuid, c: string)
    requires Sound(l) && env.transactionId != NilId
    requires w.repositoriesInScope || AppendSucceeds(l.log, env)
    ensures var r := WithdrawPriced(w, l, userId, currency, amount, price, env);
            (r.0.None? ==> r.1.log != l.log) &&
            Balance(r.1.wallets, u, c) == Balance(l.wallets, u, c) -
              (if r.1.log == l.log || u != userId || c != currency then 0.0 else amount) &&
            Balance(r.1.wallets, u, c) >= 0.0
  {
    var r := WithdrawPriced(w, l, userId, currency, amount, price, env);
    var rec := Stamped(l, userId, TransactionType.Withdraw, currency, amount, price, env);
    WithdrawLog(w, l, userId, currency, amount, price, env);
    WithdrawOutcome(w, l, userId, currency, amount, price, env);
    WithdrawKeepsSound(w, l, userId, currency, amount, price, env);
    BooksMove(l, r.1, rec, u, c);
  }

  /** Between two consistent states whose logs differ at most by one
      appended record, every balance moves by that record's contribution
      and by nothing else; and none is negative. */
  lemma BooksMove(before: LedgerState, after: LedgerState, rec: Transaction, u: Uuid, c: string)
    requires Sound(before) && Sound(after)
    requires after.log == before.log || after.log == before.log + [rec]
    ensures Balance(after.wallets, u, c) ==
            Balance(before.wallets, u, c) + (if after.log == before.log then 0.0 else Contribution(rec, u, c))
    ensures Balance(after.wallets, u, c) >= 0.0
  {
    BalanceIsNet(before.wallets, before.log, u, c);
    BalanceIsNet(after.wallets, after.log, u, c);
    NetAppend(before.log, rec, u, c);
  }

  /** Where the shared tail leaves the wallet table: as the request found
      it, as find-or-create left it, or with the one balance written; the
      last whenever no error is returned. */
  lemma SettleWallets(w: Wiring, l: LedgerState, ws: seq<Wallet>, walletId: Uuid, nb: real,
                      kind: TransactionType, userId: Uuid, currency: string, amount: real,
                      price: (Result<real>, CoinGecko.Redis), env: Env)
    requires env.transactionId != NilId
    ensures var r := Settle(w, l, ws, walletId, nb, kind, userId, currency, amount, price, env);
            var ws' := WalletRepo.SetBalance(ws, walletId, nb);
            (r.0.None? ==> r.1.wallets == ws') &&
            (r.1.wallets == l.wallets || r.1.wallets == ws || r.1.wallets == ws')
  {
    SettleCases(w, l, ws, walletId, nb, kind, userId, currency, amount, price, env);
  }

  /** The shared tail keeps the wallet table's keys. */
  lemma SettleKeepsKeys(w: Wiring, l: LedgerState, ws: seq<Wallet>, walletId: Uuid, nb: real,
                        kind: TransactionType, userId: Uuid, currency: string, amount: real,
                        price: (Result<real>, CoinGecko.Redis), env: Env, r: (Option<Error>, LedgerState))
    requires env.transactionId != NilId && KeysHold(l.wallets) && KeysHold(ws)
    requires r == Settle(w, l, ws, walletId, nb, kind, userId, currency, amount, price, env)
    ensures KeysHold(r.1.wallets)
  {
    SettleWallets(w, l, ws, walletId, nb, kind, userId, currency, amount, price, env);
    WalletRepo.SetBalanceKeepsKeys(ws, walletId, nb);
  }

  /** Deposit keeps the wallet table's keys in every outcome. */
  lemma DepositKeepsKeys(w: Wiring, l: LedgerState, userId: Uuid, currency: string, amount: real,
                         price: (Result<real>, CoinGecko.Redis), env: Env)
    requires KeysHold(l.wallets) && FreshIds(env)
    ensures KeysHold(DepositPriced(w, l, userId, currency, amount, price, env).1.wallets)
  {
    if amount > 0.0 {
      var g := GetOrCreate(l.wallets, userId, currency, env.walletId, env.faults.findWallet, env.faults.createWallet);
      GetOrCreateKeepsKeys(l.wallets, userId, currency, env.walletId, env.faults.findWallet, env.faults.createWallet);
      if g.0.Err? {
        DepositRollsBack(w, l, userId, currency, amount, price, env);
      } else {
        DepositThrough(w, l, userId, currency, amount, price, env, g.0.value, g.1);
        SettleKeepsKeys(w, l, g.1, g.0.value.id, g.0.value.balance + amount, TransactionType.Deposit,
                        userId, currency, amount, price, env, DepositPriced(w, l, userId, currency, amount, price, env));
      }
    }
  }

  /** Withdraw keeps the wallet table's keys in every outcome. */
  lemma WithdrawKeepsKeys(w: Wiring, l: LedgerState, userId: Uuid, currency: string, amount: real,
                          price: (Result<real>, CoinGecko.Redis), env: Env)
    requires KeysHold(l.wallets) && env.transactionId != NilId
    ensures KeysHold(WithdrawPriced(w, l, userId, currency, amount, price, env).1.wallets)
  {
    if amount > 0.0 {
      if WithdrawProceeds(l, userId, currency, amount, env) {
        var found := WalletRepo.FindByUserIDAndCurrency(l.wallets, userId, currency, env.faults.findWallet).value.value;
        var r := Settle(w, l, l.wallets, found.id, found.balance - amount, TransactionType.Withdraw,
                        userId, currency, amount, price, env);
        WithdrawThrough(w, l, userId, currency, amount, price, env, found, r);
        SettleKeepsKeys(w, l, l.wallets, found.id, found.balance - amount, TransactionType.Withdraw,
                        userId, currency, amount, price, env, r);
      } else {
        WithdrawRollsBack(w, l, userId, currency, amount, price, env);
      }
    }
  }

  /** The wallet find-or-create yields holds what its (user, currency)
      held: the existing wallet's balance, or 0 for a new one. */
  lemma GetOrCreateBalance(rows: seq<Wallet>, userId: Uuid, currency: string, generated: Uuid,
                           findFault: bool, createFault: bool)
    requires generated != NilId
    requires GetOrCreate(rows, userId, currency, generated, findFault, createFault).0.Ok?
    ensures GetOrCreate(rows, userId, currency, generated, findFault, createFault).0.value.balance ==
            Balance(rows, userId, currency)
  {
    GetOrCreateCases(rows, userId, currency, generated, findFault, createFault);
  }

  /** The shared tail, when it returns no error, leaves the (user,
      currency) of wallet k holding that wallet's balance moved by `delta`. */
  lemma SettleMovesBalance(w: Wiring, l: LedgerState, ws: seq<Wallet>, k: nat, found: Wallet, delta: real,
                           kind: TransactionType, userId: Uuid, currency: string, amount: real,
                           price: (Result<real>, CoinGecko.Redis), env: Env, r: (Option<Error>, LedgerState))
    requires env.transactionId != NilId
    requires WalletRepo.OneWalletPerKey(ws) && k < |ws| && ws[k] == found && WalletRepo.Keyed(found, userId, currency)
    requires r == Settle(w, l, ws, found.id, found.balance + delta, kind, userId, currency, amount, price, env)
    ensures r.0.None? ==> Balance(r.1.wallets, userId, currency) == found.balance + delta
  {
    SettleWallets(w, l, ws, found.id, found.balance + delta, kind, userId, currency, amount, price, env);
    CreditedAt(ws, k, found, userId, currency, delta);
  }

  /** Whatever the wiring and whether or not the books still balance, a
      deposit that returns no error leaves its (user, currency) holding
      exactly the amount more than before. */
  lemma DepositRaisesBalance(w: Wiring, l: LedgerState, userId: Uuid, currency: string, amount: real,
                             price: (Result<real>, CoinGecko.Redis), env: Env)
    requires KeysHold(l.wallets) && FreshIds(env)
    ensures var r := DepositPriced(w, l, userId, currency, amount, price, env);
            r.0.None? ==> Balance(r.1.wallets, userId, currency) == Balance(l.wallets, userId, currency) + amount
  {
    if amount > 0.0 {
      var g := GetOrCreate(l.wallets, userId, currency, env.walletId, env.faults.findWallet, env.faults.createWallet);
      if g.0.Err? {
        DepositRollsBack(w, l, userId, currency, amount, price, env);
      } else {
        GetOrCreateKeepsKeys(l.wallets, userId, currency, env.walletId, env.faults.findWallet, env.faults.createWallet);
        GetOrCreateBalance(l.wallets, userId, currency, env.walletId, env.faults.findWallet, env.faults.createWallet);
        var k := GetOrCreateFound(l.wallets, userId, currency, env.walletId, env.faults.findWallet, env.faults.createWallet);
        DepositThrough(w, l, userId, currency, amount, price, env, g.0.value, g.1);
        SettleMovesBalance(w, l, g.1, k, g.0.value, amount, TransactionType.Deposit, userId, currency, amount,
                           price, env, DepositPriced(w, l, userId, currency, amount, price, env));
      }
    }
  }

  /** Whatever the wiring and whether or not the books still balance, a
      withdrawal that returns no error leaves its (user, currency) holding
      exactly the amount less than before, and not less than zero. */
  lemma WithdrawLowersBalance(w: Wiring, l: LedgerState, userId: Uuid, currency: string, amount: real,
                              price: (Result<real>, CoinGecko.Redis), env: Env)
    requires KeysHold(l.wallets) && env.transactionId != NilId
    ensures var r := WithdrawPriced(w, l, userId, currency, amount, price, env);
            r.0.None? ==>
              Balance(r.1.wallets, userId, currency) == Balance(l.wallets, userId, currency) - amount &&
              Balance(r.1.wallets, userId, currency) >= 0.0
  {
    if amount > 0.0 {
      if WithdrawProceeds(l, userId, currency, amount, env) {
        var k := FoundAt(l.wallets, userId, currency, env.faults.findWallet);
        var found := l.wallets[k];
        assert found.balance == Balance(l.wallets, userId, currency);
        assert found.balance + -amount == found.balance - amount;
        WithdrawSettles(w, l, userId, currency, amount, price, env, k);
        SettleMovesBalance(w, l, l.wallets, k, found, -amount, TransactionType.Withdraw, userId, currency, amount,
                           price, env, WithdrawPriced(w, l, userId, currency, amount, price, env));
      } else {
        WithdrawOutcome(w, l, userId, currency, amount, price, env);
      }
    }
  }

  /** As wired (the repositories outside the scope), a failed append after
      the balance write leaves the balance credited with no record of it:
      the error is returned, the rollback undoes nothing, and the books no
      longer balance. */
  lemma AppendFailureAsWritten(apiUrl: string, cacheTtl: int, l: LedgerState, userId: Uuid, currency: string,
                               amount: real, price: (Result<real>, CoinGecko.Redis), env: Env)
    requires Sound(l) && FreshIds(env) && amount > 0.0
    requires env.faults == Faults(false, false, false, true, false, false)
    requires WalletRepo.FirstByKey(l.wallets, userId, currency).Some? || !WalletRepo.HasId(l.wallets, env.walletId)
    ensures var r := DepositPriced(Wiring(apiUrl, cacheTtl, false), l, userId, currency, amount, price, env);
            r.0 == Some(StorageFailure(InsertTransaction)) && r.1.log == l.log &&
            r.1.events == l.events + [Began, RolledBack] &&
            Balance(r.1.wallets, userId, currency) == Balance(l.wallets, userId, currency) + amount &&
            !Sound(r.1)
  {
    var w := Wiring(apiUrl, cacheTtl, false);
    var g := GetOrCreate(l.wallets, userId, currency, env.walletId, env.faults.findWallet, env.faults.createWallet);
    CreditedWithoutRecord(l.wallets, l.log, userId, currency, env.walletId, env.faults.findWallet, env.faults.createWallet, amount);
    DepositSettles(w, l, userId, currency, amount, price, env);
    FailedAppendKeepsCredit(w, l, g.1, g.0.value, userId, currency, amount, price, env,
                            DepositPriced(w, l, userId, currency, amount, price, env));
    SoundBalance(DepositPriced(w, l, userId, currency, amount, price, env).1, userId, currency);
  }

  /** The shared tail with a failing append, as wired: the balance write
      stays, the log does not move. */
  lemma FailedAppendKeepsCredit(w: Wiring, l: LedgerState, ws: seq<Wallet>, found: Wallet, userId: Uuid,
                                currency: string, amount: real, price: (Result<real>, CoinGecko.Redis), env: Env,
                                r: (Option<Error>, LedgerState))
    requires !w.repositoriesInScope && FreshIds(env)
    requires env.faults == Faults(false, false, false, true, false, false)
    requires r == Settle(w, l, ws, found.id, found.balance + amount,
                         TransactionType.Deposit, userId, currency, amount, price, env)
    ensures r.0 == Some(StorageFailure(InsertTransaction)) && r.1.log == l.log &&
            r.1.events == l.events + [Began, RolledBack] &&
            r.1.wallets == WalletRepo.SetBalance(ws, found.id, found.balance + amount)
  {
    SettleCases(w, l, ws, found.id, found.balance + amount,
                TransactionType.Deposit, userId, currency, amount, price, env);
  }

  /** The balance write of a deposit, on its own: found or created, the
      key's wallet ends `amount` above what the user held, and that is
      not what the unchanged log accounts for. */
  lemma CreditedWithoutRecord(wallets: seq<Wallet>, log: seq<Transaction>, userId: Uuid, currency: string,
                              generated: Uuid, findFault: bool, createFault: bool, amount: real)
    requires Books(wallets, log) && generated != NilId && amount > 0.0 && !findFault && !createFault
    requires WalletRepo.FirstByKey(wallets, userId, currency).Some? || !WalletRepo.HasId(wallets, generated)
    ensures var g := GetOrCreate(wallets, userId, currency, generated, findFault, createFault);
            g.0.Ok? &&
            var ws := WalletRepo.SetBalance(g.1, g.0.value.id, g.0.value.balance + amount);
            Balance(ws, userId, currency) == Balance(wallets, userId, currency) + amount &&
            Balance(ws, userId, currency) != Net(log, userId, currency)
  {
    var g := GetOrCreate(wallets, userId, currency, generated, findFault, createFault);
    var k := GetOrCreateAtNet(wallets, log, userId, currency, generated, findFault, createFault);
    CreditedAt(g.1, k, g.0.value, userId, currency, amount);
  }

  /** Under the books, the wallet a successful find-or-create yields holds
      what the log accounts for its key, as the key held before. */
  lemma GetOrCreateAtNet(wallets: seq<Wallet>, log: seq<Transaction>, userId: Uuid, currency: string,
                         generated: Uuid, findFault: bool, createFault: bool) returns (k: nat)
    requires Books(wallets, log) && generated != NilId
    requires GetOrCreate(wallets, userId, currency, generated, findFault, createFault).0.Ok?
    ensures var g := GetOrCreate(wallets, userId, currency, generated, findFault, createFault);
            k < |g.1| && g.1[k] == g.0.value && WalletRepo.Keyed(g.0.value, userId, currency) &&
            WalletRepo.OneWalletPerKey(g.1) &&
            g.0.value.balance == Net(log, userId, currency) &&
            Balance(wallets, userId, currency) == Net(log, userId, currency)
  {
    GetOrCreateKeepsBooks(wallets, log, userId, currency, generated, findFault, createFault);
    BalanceIsNet(wallets, log, userId, currency);
    k := GetOrCreateFound(wallets, userId, currency, generated, findFault, createFault);
  }

  /** Under the books, raising wallet k's balance by `amount` raises what
      its (user, currency) holds by exactly that. */
  lemma CreditedAt(ws: seq<Wallet>, k: nat, w: Wallet, userId: Uuid, currency: string, amount: real)
    requires WalletRepo.OneWalletPerKey(ws) && k < |ws| && ws[k] == w && WalletRepo.Keyed(w, userId, currency)
    ensures Balance(WalletRepo.SetBalance(ws, w.id, w.balance + amount), userId, currency) == w.balance + amount
  {
    var v := w.balance + amount;
    var ws' := WalletRepo.SetBalance(ws, w.id, v);
    WalletRepo.SetBalanceKeepsKeys(ws, w.id, v);
    assert ws'[k] == w.(balance := v);
    WalletRepo.FirstByKeyIsTheWallet(ws', k);
  }

  // ---------------------------------------------------------------------
  // Sequences of requests

  datatype Request =
    | DepositRequest(userId: Uuid, currency: string, amount: real)
    | WithdrawRequest(userId: Uuid, currency: string, amount: real)

  function Step(w: Wiring, l: LedgerState, req: Request, env: Env): (Option<Error>, LedgerState)
    requires FreshIds(env)
  {
    match req
    case DepositRequest(u, c, a) => Deposit(w, l, u, c, a, env)
    case WithdrawRequest(u, c, a) => Withdraw(w, l, u, c, a, env)
  }

  /** A step appends at most its own record. */
  lemma StepLog(w: Wiring, l: LedgerState, req: Request, env: Env)
    requires FreshIds(env)
    ensures var r := Step(w, l, req, env).1;
            |l.log| <= |r.log| <= |l.log| + 1 && r.log[..|l.log|] == l.log
  {
    match req {
      case DepositRequest(u, c, a) => DepositLog(w, l, u, c, a, Lookup(w, l, c, env), env);
      case WithdrawRequest(u, c, a) => WithdrawLog(w, l, u, c, a, Lookup(w, l, c, env), env);
    }
  }

  predicate AllFresh(envs: seq<Env>) {
    forall i :: 0 <= i < |envs| ==> FreshIds(envs[i])
  }

  /** The state after serving the requests one after another, each with its
      own environment. History only grows: the old log is a prefix of the
      new one. */
  function Run(w: Wiring, l: LedgerState, reqs: seq<Request>, envs: seq<Env>): (r: LedgerState)
    requires |envs| == |reqs| && AllFresh(envs)
    ensures |l.log| <= |r.log| && r.log[..|l.log|] == l.log
    decreases |reqs|
  {
    if reqs == [] then l
    else
      StepLog(w, l, reqs[0], envs[0]);
      var next := Step(w, l, reqs[0], envs[0]).1;
      var r := Run(w, next, reqs[1..], envs[1..]);
      assert r.log[..|l.log|] == r.log[..|next.log|][..|l.log|];
      r
  }

  /** Under the scope, always; as wired, every request's record can be
      stored when its turn comes. */
  ghost predicate AppendsSucceed(w: Wiring, l: LedgerState, reqs: seq<Request>, envs: seq<Env>)
    requires |envs| == |reqs| && AllFresh(envs)
    decreases |reqs|
  {
    w.repositoriesInScope ||
    reqs == [] ||
    (AppendSucceeds(l.log, envs[0]) && AppendsSucceed(w, Step(w, l, reqs[0], envs[0]).1, reqs[1..], envs[1..]))
  }

  /** Any sequence of deposits and withdrawals keeps the store consistent
      under the scope, and as wired when no append fails. */
  lemma {:induction false} RunKeepsSound(w: Wiring, l: LedgerState, reqs: seq<Request>, envs: seq<Env>)
    requires |envs| == |reqs| && AllFresh(envs) && Sound(l)
    requires AppendsSucceed(w, l, reqs, envs)
    ensures Sound(Run(w, l, reqs, envs))
    decreases |reqs|
  {
    if reqs != [] {
      match reqs[0] {
        case DepositRequest(u, c, a) => DepositKeepsSound(w, l, u, c, a, Lookup(w, l, c, envs[0]), envs[0]);
        case WithdrawRequest(u, c, a) => WithdrawKeepsSound(w, l, u, c, a, Lookup(w, l, c, envs[0]), envs[0]);
      }
      var next := Step(w, l, reqs[0], envs[0]).1;
      assert forall i :: 0 <= i < |envs[1..]| ==> envs[1..][i] == envs[i + 1];
      RunKeepsSound(w, next, reqs[1..], envs[1..]);
    }
  }

  /** Any sequence of deposits and withdrawals keeps the wallet table's
      keys, as wired and under the scope, whatever fails along the way. */
  lemma {:induction false} RunKeepsKeys(w: Wiring, l: LedgerState, reqs: seq<Request>, envs: seq<Env>)
    requires |envs| == |reqs| && AllFresh(envs) && KeysHold(l.wallets)
    ensures KeysHold(Run(w, l, reqs, envs).wallets)
    decreases |reqs|
  {
    if reqs != [] {
      match reqs[0] {
        case DepositRequest(u, c, a) => DepositKeepsKeys(w, l, u, c, a, Lookup(w, l, c, envs[0]), envs[0]);
        case WithdrawRequest(u, c, a) => WithdrawKeepsKeys(w, l, u, c, a, Lookup(w, l, c, envs[0]), envs[0]);
      }
      var next := Step(w, l, reqs[0], envs[0]).1;
      assert forall i :: 0 <= i < |envs[1..]| ==> envs[1..][i] == envs[i + 1];
      RunKeepsKeys(w, next, reqs[1..], envs[1..]);
    }
  }

  /** However many requests came before and whatever failed in them (a
      lost record as wired included), a deposit that succeeds credits its
      (user, currency) with exactly its amount. */
  lemma DepositAfterRunCredits(w: Wiring, redis: CoinGecko.Redis, reqs: seq<Request>, envs: seq<Env>,
                               userId: Uuid, currency: string, amount: real, env: Env)
    requires |envs| == |reqs| && AllFresh(envs) && FreshIds(env)
    ensures var l := Run(w, LedgerState([], [], 0, redis, []), reqs, envs);
            var r := Deposit(w, l, userId, currency, amount, env);
            r.0.None? ==> Balance(r.1.wallets, userId, currency) == Balance(l.wallets, userId, currency) + amount
  {
    var l0 := LedgerState([], [], 0, redis, []);
    RunKeepsKeys(w, l0, reqs, envs);
    var l := Run(w, l0, reqs, envs);
    DepositRaisesBalance(w, l, userId, currency, amount, Lookup(w, l, currency, env), env);
  }

  /** The shared tail writes at most one balance, so when that balance is
      not negative no balance of the table it leaves is. */
  lemma SettleKeepsSolvent(w: Wiring, l: LedgerState, ws: seq<Wallet>, walletId: Uuid, nb: real,
                           kind: TransactionType, userId: Uuid, currency: string, amount: real,
                           price: (Result<real>, CoinGecko.Redis), env: Env, r: (Option<Error>, LedgerState))
    requires env.transactionId != NilId && Solvent(l.wallets) && Solvent(ws) && nb >= 0.0
    requires r == Settle(w, l, ws, walletId, nb, kind, userId, currency, amount, price, env)
    ensures Solvent(r.1.wallets)
  {
    SettleWallets(w, l, ws, walletId, nb, kind, userId, currency, amount, price, env);
  }

  /** Find-or-create leaves no balance negative, and the wallet it yields
      holds a balance that is not negative: a new wallet starts at 0. */
  lemma GetOrCreateKeepsSolvent(rows: seq<Wallet>, userId: Uuid, currency: string, generated: Uuid,
                                findFault: bool, createFault: bool)
    requires generated != NilId && Solvent(rows)
    ensures var g := GetOrCreate(rows, userId, currency, generated, findFault, createFault);
            Solvent(g.1) && (g.0.Ok? ==> g.0.value.balance >= 0.0)
  {
    GetOrCreateCases(rows, userId, currency, generated, findFault, createFault);
  }

  /** A deposit leaves no balance negative, in every outcome and under
      either wiring: it only ever adds a positive amount, and a new wallet
      starts at 0. */
  lemma DepositKeepsSolvent(w: Wiring, l: LedgerState, userId: Uuid, currency: string, amount: real,
                            price: (Result<real>, CoinGecko.Redis), env: Env)
    requires Solvent(l.wallets) && FreshIds(env)
    ensures Solvent(DepositPriced(w, l, userId, currency, amount, price, env).1.wallets)
  {
    if amount > 0.0 {
      var g := GetOrCreate(l.wallets, userId, currency, env.walletId, env.faults.findWallet, env.faults.createWallet);
      GetOrCreateKeepsSolvent(l.wallets, userId, currency, env.walletId, env.faults.findWallet, env.faults.createWallet);
      if g.0.Err? {
        DepositRollsBack(w, l, userId, currency, amount, price, env);
      } else {
        DepositThrough(w, l, userId, currency, amount, price, env, g.0.value, g.1);
        SettleKeepsSolvent(w, l, g.1, g.0.value.id, g.0.value.balance + amount, TransactionType.Deposit,
                           userId, currency, amount, price, env, DepositPriced(w, l, userId, currency, amount, price, env));
      }
    }
  }

  /** A withdrawal leaves no balance negative, in every outcome and under
      either wiring: it writes `balance - amount` only after checking that
      the balance covers the amount. */
  lemma WithdrawKeepsSolvent(w: Wiring, l: LedgerState, userId: Uuid, currency: string, amount: real,
                             price: (Result<real>, CoinGecko.Redis), env: Env)
    requires Solvent(l.wallets) && env.transactionId != NilId
    ensures Solvent(WithdrawPriced(w, l, userId, currency, amount, price, env).1.wallets)
  {
    if amount > 0.0 {
      if WithdrawProceeds(l, userId, currency, amount, env) {
        var found := WalletRepo.FindByUserIDAndCurrency(l.wallets, userId, currency, env.faults.findWallet).value.value;
        var r := Settle(w, l, l.wallets, found.id, found.balance - amount, TransactionType.Withdraw,
                        userId, currency, amount, price, env);
        WithdrawThrough(w, l, userId, currency, amount, price, env, found, r);
        SettleKeepsSolvent(w, l, l.wallets, found.id, found.balance - amount, TransactionType.Withdraw,
                           userId, currency, amount, price, env, r);
      } else {
        WithdrawRollsBack(w, l, userId, currency, amount, price, env);
      }
    }
  }

  /** Any sequence of deposits and withdrawals leaves no balance negative,
      under either wiring and whatever fails along the way, a lost record
      as wired included. */
  lemma {:induction false} RunKeepsSolvent(w: Wiring, l: LedgerState, reqs: seq<Request>, envs: seq<Env>)
    requires |envs| == |reqs| && AllFresh(envs) && Solvent(l.wallets)
    ensures Solvent(Run(w, l, reqs, envs).wallets)
    decreases |reqs|
  {
    if reqs != [] {
      match reqs[0] {
        case DepositRequest(u, c, a) => DepositKeepsSolvent(w, l, u, c, a, Lookup(w, l, c, envs[0]), envs[0]);
        case WithdrawRequest(u, c, a) => WithdrawKeepsSolvent(w, l, u, c, a, Lookup(w, l, c, envs[0]), envs[0]);
      }
      var next := Step(w, l, reqs[0], envs[0]).1;
      assert forall i :: 0 <= i < |envs[1..]| ==> envs[1..][i] == envs[i + 1];
      RunKeepsSolvent(w, next, reqs[1..], envs[1..]);
    }
  }

  /** Conservation: starting from an empty store, after any sequence of
      requests no balance is negative; and every balance is the sum of the
      recorded deposits minus the recorded withdrawals for its (user,
      currency) under the scope, or as wired when no append fails. */
  lemma Conservation(w: Wiring, redis: CoinGecko.Redis, reqs: seq<Request>, envs: seq<Env>, u: Uuid, c: string)
    requires |envs| == |reqs| && AllFresh(envs)
    ensures var l := Run(w, LedgerState([], [], 0, redis, []), reqs, envs);
            Balance(l.wallets, u, c) >= 0.0
    ensures var l := Run(w, LedgerState([], [], 0, redis, []), reqs, envs);
            AppendsSucceed(w, LedgerState([], [], 0, redis, []), reqs, envs) ==>
            Balance(l.wallets, u, c) == Net(l.log, u, c)
  {
    var l0 := LedgerState([], [], 0, redis, []);
    RunKeepsSolvent(w, l0, reqs, envs);
    var l := Run(w, l0, reqs, envs);
    if AppendsSucceed(w, l0, reqs, envs) {
      EmptyIsSound(0, redis);
      RunKeepsSound(w, l0, reqs, envs);
      BalanceIsNet(l.wallets, l.log, u, c);
    }
  }

  /** A deposit of 2 ETH followed by a withdrawal of 3 ETH: the first
      succeeds with a balance of 2 and one deposit record; the second is
      refused as insufficient and changes neither. */
  lemma DepositThenOverdraw(w: Wiring, redis: CoinGecko.Redis, feed: CoinGecko.Feed)
    ensures var user: Uuid := 1;
            var l0 := LedgerState([], [], 0, redis, []);
            var d := Deposit(w, l0, user, "ETH", 2.0, Env(NoFaults, 10, 20, 0, feed));
            var x := Withdraw(w, d.1, user, "ETH", 3.0, Env(NoFaults, 11, 21, 1, feed));
            d.0.None? && Balance(d.1.wallets, user, "ETH") == 2.0 &&
            |d.1.log| == 1 && d.1.log[0].kind == TransactionType.Deposit && d.1.log[0].amount == 2.0 &&
            x.0 == Some(InsufficientBalance) &&
            Balance(x.1.wallets, user, "ETH") == 2.0 && x.1.log == d.1.log
  {
    var l0 := LedgerState([], [], 0, redis, []);
    var env := Env(NoFaults, 10, 20, 0, feed);
    DepositOutcome(w, l0, 1, "ETH", 2.0, Lookup(w, l0, "ETH", env), env);
    var d := Deposit(w, l0, 1, "ETH", 2.0, env);
    assert d.1.wallets == [Wallet(10, 1, "ETH", 2.0)];
    var env' := Env(NoFaults, 11, 21, 1, feed);
    WithdrawRefusals(w, d.1, 1, "ETH", 3.0, Lookup(w, d.1, "ETH", env'), env');
  }

}
