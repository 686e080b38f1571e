/** `GET /wallet`, `POST /wallet/deposit` and `POST /wallet/withdraw`: the
    checks a request passes before it reaches the wallet service, and the
    reply each outcome maps to. The handlers hold no state of their own; the
    service's answer is a parameter, consulted only when the request is
    forwarded. */
module WalletHandler {
  import opened Common
  import opened WalletModel
  import opened TransactionModel
  import CoinGecko
  import Text
  import Ledger

  const StatusOk: int := 200
  const StatusBadRequest: int := 400
  const StatusUnauthorized: int := 401
  const StatusInternalServerError: int := 500

  /** The currencies the handlers accept, compared exactly as sent. */
  const ValidCurrencies: set<string> := {"BTC", "ETH", "USDT", "IDR"}

  const InvalidCurrencyMessage: string := "Invalid currency. Supported: BTC, ETH, USDT, IDR"

  datatype Endpoint = DepositEndpoint | WithdrawEndpoint

  function SuccessMessage(e: Endpoint): string {
    match e
    case DepositEndpoint => "Deposit successful"
    case WithdrawEndpoint => "Withdrawal successful"
  }

  datatype Body =
    | ErrorMessage(message: string)
    | BindError                      // gin's description of the binding failure
    | ServiceError(error: Error)
    | Confirmation(message: string, currency: string, amount: real)
    | Report(portfolio: PortfolioResponse)

  datatype Reply = Reply(status: int, body: Body)

  /** The request a POST hands to the service, if any: the caller is
      authenticated, the body decodes (`None` when it is not a JSON object
      with the two fields), passes the binding rules, and names a whitelisted
      currency. */
  function Forwarded(auth: Auth, body: Option<TransactionRequest>): (req: Option<TransactionRequest>)
    ensures req.Some? <==>
      auth.Authenticated? && body.Some? && Binds(body.value) && body.value.currency in ValidCurrencies
    ensures req.Some? ==> req == body
  {
    if auth.Unauthenticated? || body.None? || !Binds(body.value) || body.value.currency !in ValidCurrencies then None
    else body
  }

  /** `Deposit` and `Withdraw`: authentication, binding, the whitelist, then
      the service; `outcome` is the service's answer to the forwarded
      request. */
  function Submit(endpoint: Endpoint, auth: Auth, body: Option<TransactionRequest>, outcome: Option<Error>): (r: Reply)
    ensures r.status == StatusUnauthorized <==> auth.Unauthenticated?
    ensures auth.Unauthenticated? ==> r.body == ErrorMessage(auth.message)
    ensures auth.Authenticated? && (body.None? || !Binds(body.value)) ==> r == Reply(StatusBadRequest, BindError)
    ensures auth.Authenticated? && body.Some? && Binds(body.value) && body.value.currency !in ValidCurrencies ==>
      r == Reply(StatusBadRequest, ErrorMessage(InvalidCurrencyMessage))
    // every service error is the caller's fault
    ensures Forwarded(auth, body).Some? && outcome.Some? ==> r == Reply(StatusBadRequest, ServiceError(outcome.value))
    // success echoes the request
    ensures r.status == StatusOk <==> Forwarded(auth, body).Some? && outcome.None?
    ensures r.status == StatusOk ==>
      r.body == Confirmation(SuccessMessage(endpoint), body.value.currency, body.value.amount)
    ensures r.status in {StatusOk, StatusBadRequest, StatusUnauthorized}
  {
    match auth
    case Unauthenticated(message) => Reply(StatusUnauthorized, ErrorMessage(message))
    case Authenticated(_) =>
      if body.None? || !Binds(body.value) then Reply(StatusBadRequest, BindError)
      else if body.value.currency !in ValidCurrencies then Reply(StatusBadRequest, ErrorMessage(InvalidCurrencyMessage))
      else match outcome
        case Some(e) => Reply(StatusBadRequest, ServiceError(e))
        case None => Reply(StatusOk, Confirmation(SuccessMessage(endpoint), body.value.currency, body.value.amount))
  }

  /** A request that is not forwarded gets the same reply whatever the
      service would have answered: the service is not called. */
  lemma NotForwardedIgnoresService(endpoint: Endpoint, auth: Auth, body: Option<TransactionRequest>,
                                   one: Option<Error>, other: Option<Error>)
    requires Forwarded(auth, body).None?
    ensures Submit(endpoint, auth, body, one) == Submit(endpoint, auth, body, other)
  {
  }

  /** A forwarded deposit or withdrawal always gets past the service's
      amount check: its scope opens. */
  lemma ForwardedOpensScope(auth: Auth, body: Option<TransactionRequest>, w: Ledger.Wiring,
                            l: Ledger.LedgerState, env: Ledger.Env)
    requires Forwarded(auth, body).Some? && Ledger.FreshIds(env)
    ensures var req := Forwarded(auth, body).value;
            var d := Ledger.Deposit(w, l, auth.userId, req.currency, req.amount, env);
            var t := Ledger.Withdraw(w, l, auth.userId, req.currency, req.amount, env);
            d.0 != Some(InvalidAmount) && d.1.events == l.events + [Ledger.Began, Ledger.Closing(d.0)] &&
            t.0 != Some(InvalidAmount) && t.1.events == l.events + [Ledger.Began, Ledger.Closing(t.0)]
  {
  }

  /** Every whitelisted currency is one the price service knows: its price
      can be missing from the table, or the table request can fail, but it
      is never unsupported. */
  lemma WhitelistIsPriced(currency: string, tables: Result<CoinGecko.PriceTable>)
    requires currency in ValidCurrencies
    requires tables.Err? ==> tables.error.FetchFailed?
    ensures !(CoinGecko.UnitPrice(currency, tables).Err? && CoinGecko.UnitPrice(currency, tables).error.UnsupportedCurrency?)
  {
    var u := Text.ToUpper(currency);
    assert u == currency by {
      assert |u| == |currency|;
      forall i | 0 <= i < |u| ensures u[i] == currency[i] {
        assert 'A' <= currency[i] <= 'Z';
      }
    }
    assert currency == CoinGecko.ReferenceCurrency || currency in CoinGecko.CoinIds;
  }

  /** `GetWallet`: authentication, then the portfolio; `outcome` is the
      service's answer. */
  function GetWallet(auth: Auth, outcome: Result<PortfolioResponse>): (r: Reply)
    ensures r.status == StatusUnauthorized <==> auth.Unauthenticated?
    ensures auth.Authenticated? && outcome.Err? ==> r == Reply(StatusInternalServerError, ServiceError(outcome.error))
    ensures auth.Authenticated? && outcome.Ok? ==> r == Reply(StatusOk, Report(outcome.value))
  {
    match auth
    case Unauthenticated(message) => Reply(StatusUnauthorized, ErrorMessage(message))
    case Authenticated(_) =>
      match outcome
      case Err(e) => Reply(StatusInternalServerError, ServiceError(e))
      case Ok(p) => Reply(StatusOk, Report(p))
  }
}
