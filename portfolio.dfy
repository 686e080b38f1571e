/** `GetPortfolio`: the valued snapshot of a user's wallets. Wallets with a
    balance of exactly zero are skipped; every other wallet becomes one
    line, valued at its balance times its unit price in IDR, in listing
    order, and the total is the sum of the line values. A price that cannot
    be determined fails the whole request, with the currency named.

    All lookups of one request go through the same cache at the same time,
    so they are all answered from one table: the outcome of the first
    cache-aside request (see `LookupAgainstOneTable`). `PortfolioOf` is the
    valuation against that one outcome; `Valued` is the whole request. The
    class `LedgerService.WalletService` computes `Valued` with the loop of
    the source. */
module Portfolio {
  import opened Common
  import opened WalletModel
  import WalletRepo
  import Text
  import CoinGecko

  /** The portfolio line of a wallet at a unit price. */
  function Line(w: Wallet, price: real): (a: WalletWithPrice)
    ensures a.currency == w.currency && a.balance == w.balance && a.priceIdr == price
    ensures a.valueIdr == w.balance * price
  {
    WalletWithPrice(w.currency, w.balance, price, w.balance * price)
  }

  /** The wallets that are listed, in order: those whose balance is not zero. */
  function NonZero(ws: seq<Wallet>): (r: seq<Wallet>)
    ensures |r| <= |ws|
    ensures forall w :: w in r <==> w in ws && w.balance != 0.0
    decreases |ws|
  {
    if ws == [] then []
    else
      var init := ws[..|ws| - 1];
      assert forall w :: w in ws <==> w in init || w == ws[|ws| - 1] by {
        assert ws == init + [ws[|ws| - 1]];
      }
      NonZero(init) + (if ws[|ws| - 1].balance != 0.0 then [ws[|ws| - 1]] else [])
  }

  function SumValues(assets: seq<WalletWithPrice>): real
    decreases |assets|
  {
    if assets == [] then 0.0
    else SumValues(assets[..|assets| - 1]) + assets[|assets| - 1].valueIdr
  }

  /** A wallet can be listed: it is skipped, or its price is known. */
  predicate Priced(w: Wallet, prices: Result<CoinGecko.PriceTable>) {
    w.balance == 0.0 || CoinGecko.UnitPrice(w.currency, prices).Ok?
  }

  /** One turn of the loop: a wallet with a zero balance is skipped; any
      other is priced and its line appended, its value added to the total. */
  function Visit(p: PortfolioResponse, w: Wallet, prices: Result<CoinGecko.PriceTable>): (r: Result<PortfolioResponse>)
    ensures r.Err? <==> !Priced(w, prices)
    ensures w.balance == 0.0 ==> r == Ok(p)
  {
    if w.balance == 0.0 then Ok(p)
    else
      match CoinGecko.UnitPrice(w.currency, prices)
      case Err(e) => Err(PriceLookupFailed(w.currency, e))
      case Ok(u) =>
        var line := Line(w, u);
        Ok(PortfolioResponse(p.assets + [line], p.totalValueIdr + line.valueIdr))
  }

  /** The valuation of wallets against one outcome of the table request,
      folded in listing order as the loop of `GetPortfolio` does. The total
      reported is the sum of the values of the lines reported. */
  function PortfolioOf(ws: seq<Wallet>, prices: Result<CoinGecko.PriceTable>): (r: Result<PortfolioResponse>)
    ensures ws == [] ==> r == Ok(PortfolioResponse([], 0.0))
    decreases |ws|
  {
    if ws == [] then Ok(PortfolioResponse([], 0.0))
    else
      match PortfolioOf(ws[..|ws| - 1], prices)
      case Err(e) => Err(e)
      case Ok(p) => Visit(p, ws[|ws| - 1], prices)
  }

  /** The total reported is the sum of the values of the lines reported. */
  lemma {:induction false} PortfolioTotal(ws: seq<Wallet>, prices: Result<CoinGecko.PriceTable>)
    ensures var r := PortfolioOf(ws, prices);
            r.Ok? ==> r.value.totalValueIdr == SumValues(r.value.assets)
    decreases |ws|
  {
    if ws != [] {
      var init := ws[..|ws| - 1];
      PortfolioTotal(init, prices);
      var p := PortfolioOf(init, prices);
      var w := ws[|ws| - 1];
      if p.Ok? && w.balance != 0.0 && CoinGecko.UnitPrice(w.currency, prices).Ok? {
        var assets := p.value.assets + [Line(w, CoinGecko.UnitPrice(w.currency, prices).value)];
        assert assets[..|assets| - 1] == p.value.assets;
      }
    }
  }

  /** The valuation succeeds exactly when every wallet can be listed. */
  lemma {:induction false} PortfolioSucceeds(ws: seq<Wallet>, prices: Result<CoinGecko.PriceTable>)
    ensures PortfolioOf(ws, prices).Ok? <==> forall i :: 0 <= i < |ws| ==> Priced(ws[i], prices)
    decreases |ws|
  {
    if ws != [] {
      var init := ws[..|ws| - 1];
      PortfolioSucceeds(init, prices);
      assert forall i :: 0 <= i < |init| ==> init[i] == ws[i];
    }
  }

  /** A successful valuation lists exactly the non-zero wallets, in order,
      each at its unit price. */
  lemma {:induction false} PortfolioLines(ws: seq<Wallet>, prices: Result<CoinGecko.PriceTable>)
    ensures var r := PortfolioOf(ws, prices);
            r.Ok? ==>
              |r.value.assets| == |NonZero(ws)| &&
              forall j :: 0 <= j < |r.value.assets| ==>
                CoinGecko.UnitPrice(NonZero(ws)[j].currency, prices) == Ok(r.value.assets[j].priceIdr) &&
                r.value.assets[j] == Line(NonZero(ws)[j], r.value.assets[j].priceIdr)
    decreases |ws|
  {
    if ws != [] {
      PortfolioLines(ws[..|ws| - 1], prices);
    }
  }

  /** A failed valuation reports the first wallet that cannot be listed:
      every wallet before it can be, and the error names its currency and
      carries the price error. */
  lemma {:induction false} StopsAtFirstError(ws: seq<Wallet>, prices: Result<CoinGecko.PriceTable>)
    ensures var r := PortfolioOf(ws, prices);
            r.Err? ==>
              exists i :: 0 <= i < |ws| && !Priced(ws[i], prices) &&
                (forall j :: 0 <= j < i ==> Priced(ws[j], prices)) &&
                r.error == PriceLookupFailed(ws[i].currency, CoinGecko.UnitPrice(ws[i].currency, prices).error)
    decreases |ws|
  {
    if ws != [] {
      var init := ws[..|ws| - 1];
      StopsAtFirstError(init, prices);
      assert forall j :: 0 <= j < |init| ==> init[j] == ws[j];
      if PortfolioOf(init, prices).Ok? {
        PortfolioSucceeds(init, prices);
      }
    }
  }

  /** Once a prefix of the wallets fails, the rest are never looked at. */
  lemma {:induction false} FailureIsFinal(ws: seq<Wallet>, k: nat, prices: Result<CoinGecko.PriceTable>)
    requires k <= |ws| && PortfolioOf(ws[..k], prices).Err?
    ensures PortfolioOf(ws, prices) == PortfolioOf(ws[..k], prices)
    decreases |ws| - k
  {
    if k < |ws| {
      var next := ws[..k + 1];
      assert next[..k] == ws[..k];
      FailureIsFinal(ws, k + 1, prices);
    } else {
      assert ws[..k] == ws;
    }
  }

  /** Some listed wallet needs the table: its currency is not IDR, which
      alone is priced without the cache. */
  predicate NeedsTable(ws: seq<Wallet>) {
    exists i :: 0 <= i < |ws| && ws[i].balance != 0.0 && Text.ToUpper(ws[i].currency) != CoinGecko.ReferenceCurrency
  }

  /** One more wallet of the listing: the valuation takes one `Visit` step,
      and the new wallet needs the table exactly when it is listed and not
      IDR. */
  lemma NextWallet(ws: seq<Wallet>, i: nat, prices: Result<CoinGecko.PriceTable>)
    requires i < |ws|
    ensures var p := PortfolioOf(ws[..i], prices);
            p.Ok? ==> PortfolioOf(ws[..i + 1], prices) == Visit(p.value, ws[i], prices)
    ensures NeedsTable(ws[..i + 1]) <==>
              NeedsTable(ws[..i]) || (ws[i].balance != 0.0 && Text.ToUpper(ws[i].currency) != CoinGecko.ReferenceCurrency)
  {
    var next := ws[..i + 1];
    assert next[..i] == ws[..i];
    assert next[i] == ws[i];
    if NeedsTable(next) {
      var j :| 0 <= j < |next| && next[j].balance != 0.0 && Text.ToUpper(next[j].currency) != CoinGecko.ReferenceCurrency;
      if j < i {
        assert ws[..i][j] == next[j];
      }
    }
    if NeedsTable(ws[..i]) {
      var j :| 0 <= j < i && ws[..i][j].balance != 0.0 && Text.ToUpper(ws[..i][j].currency) != CoinGecko.ReferenceCurrency;
      assert next[j] == ws[..i][j];
    }
  }

  /** A zero wallet next in the listing: the valuation and the need for
      the table stay as they were. */
  lemma SkipStep(ws: seq<Wallet>, i: nat, prices: Result<CoinGecko.PriceTable>, p: PortfolioResponse)
    requires i < |ws| && ws[i].balance == 0.0 && PortfolioOf(ws[..i], prices) == Ok(p)
    ensures PortfolioOf(ws[..i + 1], prices) == Ok(p)
    ensures NeedsTable(ws[..i + 1]) <==> NeedsTable(ws[..i])
  {
    NextWallet(ws, i, prices);
  }

  /** A non-zero wallet next in the listing, with a known unit price: its
      line is appended and its value added to the total. */
  lemma PricedStep(ws: seq<Wallet>, i: nat, prices: Result<CoinGecko.PriceTable>, p: PortfolioResponse, u: real)
    requires i < |ws| && ws[i].balance != 0.0 && PortfolioOf(ws[..i], prices) == Ok(p)
    requires CoinGecko.UnitPrice(ws[i].currency, prices) == Ok(u)
    ensures PortfolioOf(ws[..i + 1], prices) ==
            Ok(PortfolioResponse(p.assets + [Line(ws[i], u)], p.totalValueIdr + Line(ws[i], u).valueIdr))
  {
    NextWallet(ws, i, prices);
  }

  /** The cache after one more priced wallet: a lookup for IDR leaves it
      alone, any other leaves it as the first table request did. */
  lemma CacheStep(ws: seq<Wallet>, i: nat, redis: CoinGecko.Redis, table: CoinGecko.Redis,
                  cur: CoinGecko.Redis, next: CoinGecko.Redis)
    requires i < |ws| && ws[i].balance != 0.0
    requires cur == if NeedsTable(ws[..i]) then table else redis
    requires next == if Text.ToUpper(ws[i].currency) == CoinGecko.ReferenceCurrency then cur else table
    ensures next == if NeedsTable(ws[..i + 1]) then table else redis
  {
    NextWallet(ws, i, Err(CacheUnavailable));
  }

  /** A non-zero wallet next in the listing whose price cannot be found:
      the valuation of the whole listing fails with that wallet's error,
      and the listing needs the table. */
  lemma FailedStep(ws: seq<Wallet>, i: nat, prices: Result<CoinGecko.PriceTable>, p: PortfolioResponse)
    requires i < |ws| && ws[i].balance != 0.0 && PortfolioOf(ws[..i], prices) == Ok(p)
    requires CoinGecko.UnitPrice(ws[i].currency, prices).Err?
    ensures Text.ToUpper(ws[i].currency) != CoinGecko.ReferenceCurrency && NeedsTable(ws)
    ensures PortfolioOf(ws, prices) ==
            Err(PriceLookupFailed(ws[i].currency, CoinGecko.UnitPrice(ws[i].currency, prices).error))
  {
    NextWallet(ws, i, prices);
    FailureIsFinal(ws, i + 1, prices);
  }

  /** Every lookup the loop makes goes to a cache that is either the one
      the request started with or the one the first table request left;
      either way it is answered from the first request's outcome, and it
      leaves the cache as the first request left it (IDR leaves it alone). */
  lemma LookupAgainstOneTable(redis: CoinGecko.Redis, cur: CoinGecko.Redis, now: int, readFault: bool, ttlSeconds: int,
                              apiUrl: string, currency: string, feed: CoinGecko.Feed)
    requires var c := CoinGecko.CacheAside(redis, now, readFault, ttlSeconds, apiUrl, CoinGecko.FeedIds, feed);
             cur == redis || cur == c.1
    ensures var c := CoinGecko.CacheAside(redis, now, readFault, ttlSeconds, apiUrl, CoinGecko.FeedIds, feed);
            var q := CoinGecko.PriceLookup(cur, now, readFault, ttlSeconds, apiUrl, currency, feed);
            q.0 == CoinGecko.UnitPrice(currency, c.0) &&
            q.1 == (if Text.ToUpper(currency) == CoinGecko.ReferenceCurrency then cur else c.1)
  {
    CoinGecko.CacheAsideIdempotent(redis, now, readFault, ttlSeconds, apiUrl, CoinGecko.FeedIds, feed);
  }

  /** A successful lookup of the loop for a non-zero wallet, made against
      the cache the earlier turns left: the wallet's line is appended, its
      value added to the total, and the cache is as the valuation so far
      predicts. */
  lemma PricedTurn(ws: seq<Wallet>, i: nat, redis: CoinGecko.Redis,
                   c: (Result<CoinGecko.PriceTable>, CoinGecko.Redis), report: PortfolioResponse,
                   cur: CoinGecko.Redis, u: real, after: CoinGecko.Redis, line: WalletWithPrice,
                   now: int, readFault: bool, ttlSeconds: int, apiUrl: string, feed: CoinGecko.Feed)
    requires i < |ws| && ws[i].balance != 0.0
    requires c == CoinGecko.CacheAside(redis, now, readFault, ttlSeconds, apiUrl, CoinGecko.FeedIds, feed)
    requires PortfolioOf(ws[..i], c.0) == Ok(report)
    requires cur == if NeedsTable(ws[..i]) then c.1 else redis
    requires (Ok(u), after) == CoinGecko.PriceLookup(cur, now, readFault, ttlSeconds, apiUrl, ws[i].currency, feed)
    requires line == Line(ws[i], u)
    ensures PortfolioOf(ws[..i + 1], c.0) ==
            Ok(PortfolioResponse(report.assets + [line], report.totalValueIdr + line.valueIdr))
    ensures after == if NeedsTable(ws[..i + 1]) then c.1 else redis
  {
    LookupAgainstOneTable(redis, cur, now, readFault, ttlSeconds, apiUrl, ws[i].currency, feed);
    PricedStep(ws, i, c.0, report, u);
    CacheStep(ws, i, redis, c.1, cur, after);
  }

  /** A failed lookup of the loop for a non-zero wallet: the whole
      valuation fails with this wallet's error, and the cache is as the
      first table request left it. */
  lemma FailedTurn(ws: seq<Wallet>, i: nat, redis: CoinGecko.Redis,
                   c: (Result<CoinGecko.PriceTable>, CoinGecko.Redis), report: PortfolioResponse,
                   cur: CoinGecko.Redis, e: Error, after: CoinGecko.Redis,
                   now: int, readFault: bool, ttlSeconds: int, apiUrl: string, feed: CoinGecko.Feed)
    requires i < |ws| && ws[i].balance != 0.0
    requires c == CoinGecko.CacheAside(redis, now, readFault, ttlSeconds, apiUrl, CoinGecko.FeedIds, feed)
    requires PortfolioOf(ws[..i], c.0) == Ok(report)
    requires cur == if NeedsTable(ws[..i]) then c.1 else redis
    requires (Err(e), after) == CoinGecko.PriceLookup(cur, now, readFault, ttlSeconds, apiUrl, ws[i].currency, feed)
    ensures PortfolioOf(ws, c.0) == Err(PriceLookupFailed(ws[i].currency, e))
    ensures after == c.1 && NeedsTable(ws)
  {
    LookupAgainstOneTable(redis, cur, now, readFault, ttlSeconds, apiUrl, ws[i].currency, feed);
    FailedStep(ws, i, c.0, report);
  }

  /** `GetPortfolio` as a function of the wallet table and the cache: a
      listing error is returned as it is; otherwise the user's wallets are
      valued against the first table request, and the cache ends as that
      request left it if any listed wallet needed the table. */
  function Valued(rows: seq<Wallet>, userId: Uuid, fault: bool, redis: CoinGecko.Redis, now: int,
                  readFault: bool, ttlSeconds: int, apiUrl: string, feed: CoinGecko.Feed)
    : (r: (Result<PortfolioResponse>, CoinGecko.Redis))
    // a listing error is reported before the cache is consulted
    ensures fault ==> r == (Err(StorageFailure(SelectWallet)), redis)
    // otherwise the user's wallets are valued against the first table request
    ensures !fault ==>
      r.0 == PortfolioOf(WalletRepo.OwnedBy(rows, userId),
                         CoinGecko.CacheAside(redis, now, readFault, ttlSeconds, apiUrl, CoinGecko.FeedIds, feed).0)
    // the cache is untouched unless some wallet of the user has a balance
    ensures !fault && !NeedsTable(WalletRepo.OwnedBy(rows, userId)) ==> r.1 == redis
  {
    match WalletRepo.FindAllByUserID(rows, userId, fault)
    case Err(e) => (Err(e), redis)
    case Ok(ws) =>
      var c := CoinGecko.CacheAside(redis, now, readFault, ttlSeconds, apiUrl, CoinGecko.FeedIds, feed);
      (PortfolioOf(ws, c.0), if NeedsTable(ws) then c.1 else redis)
  }

  /** `GetPortfolio` succeeds exactly when every non-zero wallet of the
      user has a price in the one table outcome. */
  lemma ValuedSucceeds(rows: seq<Wallet>, userId: Uuid, redis: CoinGecko.Redis, now: int,
                       readFault: bool, ttlSeconds: int, apiUrl: string, feed: CoinGecko.Feed)
    ensures var r := Valued(rows, userId, false, redis, now, readFault, ttlSeconds, apiUrl, feed).0;
            var prices := CoinGecko.CacheAside(redis, now, readFault, ttlSeconds, apiUrl, CoinGecko.FeedIds, feed).0;
            r.Ok? <==> forall w :: w in rows && w.userId == userId && w.balance != 0.0 ==>
                         CoinGecko.UnitPrice(w.currency, prices).Ok?
  {
    var ws := WalletRepo.OwnedBy(rows, userId);
    var prices := CoinGecko.CacheAside(redis, now, readFault, ttlSeconds, apiUrl, CoinGecko.FeedIds, feed).0;
    PortfolioSucceeds(ws, prices);
    if !PortfolioOf(ws, prices).Ok? {
      var i :| 0 <= i < |ws| && !Priced(ws[i], prices);
      assert ws[i] in ws;
    }
  }

  /** What a successful `GetPortfolio` reports: one line for every
      non-zero wallet of the user, in listing order and nothing else, each
      at its unit price in the one table outcome (a `Line` is valued at
      balance times price), the total being their sum. */
  lemma ValuedLines(rows: seq<Wallet>, userId: Uuid, redis: CoinGecko.Redis, now: int,
                    readFault: bool, ttlSeconds: int, apiUrl: string, feed: CoinGecko.Feed)
    ensures var r := Valued(rows, userId, false, redis, now, readFault, ttlSeconds, apiUrl, feed).0;
            var prices := CoinGecko.CacheAside(redis, now, readFault, ttlSeconds, apiUrl, CoinGecko.FeedIds, feed).0;
            var listed := NonZero(WalletRepo.OwnedBy(rows, userId));
            r.Ok? ==>
              r.value.totalValueIdr == SumValues(r.value.assets) &&
              |r.value.assets| == |listed| &&
              (forall j :: 0 <= j < |listed| ==>
                 CoinGecko.UnitPrice(listed[j].currency, prices) == Ok(r.value.assets[j].priceIdr) &&
                 r.value.assets[j] == Line(listed[j], r.value.assets[j].priceIdr)) &&
              forall a :: a in r.value.assets ==>
                a.balance != 0.0 && exists w :: w in rows && w.userId == userId && a == Line(w, a.priceIdr)
  {
    var ws := WalletRepo.OwnedBy(rows, userId);
    var prices := CoinGecko.CacheAside(redis, now, readFault, ttlSeconds, apiUrl, CoinGecko.FeedIds, feed).0;
    PortfolioLines(ws, prices);
    PortfolioTotal(ws, prices);
    var r := PortfolioOf(ws, prices);
    if r.Ok? {
      forall a | a in r.value.assets
        ensures a.balance != 0.0
        ensures exists w :: w in rows && w.userId == userId && a == Line(w, a.priceIdr)
      {
        var j :| 0 <= j < |r.value.assets| && r.value.assets[j] == a;
        var w := NonZero(ws)[j];
        assert w in NonZero(ws);
        assert w in rows && w.userId == userId;
      }
    }
  }

  /** Two wallets, 0 BTC and 1.5 ETH, with ETH at 50,000,000 IDR: the BTC
      wallet is skipped (its price is not even needed) and the portfolio
      is one line worth 75,000,000 IDR. */
  lemma SkipsEmptyWallet()
    ensures var prices := Ok(map["ethereum" := map["idr" := 50000000.0]]);
            var ws := [Wallet(1, 7, "BTC", 0.0), Wallet(2, 7, "ETH", 1.5)];
            PortfolioOf(ws, prices) ==
              Ok(PortfolioResponse([WalletWithPrice("ETH", 1.5, 50000000.0, 75000000.0)], 75000000.0))
  {
    var prices: Result<CoinGecko.PriceTable> := Ok(map["ethereum" := map["idr" := 50000000.0]]);
    var ws := [Wallet(1, 7, "BTC", 0.0), Wallet(2, 7, "ETH", 1.5)];
    assert Text.ToUpper("ETH") == "ETH";
    assert ws[..1] == [Wallet(1, 7, "BTC", 0.0)];
    assert ws[..1][..0] == [];
    assert PortfolioOf(ws[..1], prices) == Ok(PortfolioResponse([], 0.0));
    var line := Line(ws[1], 50000000.0);
    assert line == WalletWithPrice("ETH", 1.5, 50000000.0, 75000000.0);
    assert [] + [line] == [line];
  }
}
