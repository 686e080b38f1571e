/** The price service: a cache-aside layer over the CoinGecko price feed,
    kept under one fixed Redis key, and the resolver that turns a currency
    symbol into a unit price in IDR.

    The HTTP call is an oracle `feed` from request URL to outcome (transport
    error, or a status code and a body that does or does not decode as a
    price table); the clock is a parameter `now` in seconds. Redis is a map
    from key to entry; an entry is present at time `now` iff it has no
    expiry or `now` is before its expiry. */
module CoinGecko {
  import opened Common
  import Text

  /** feed id -> quote currency -> price, as the feed's JSON decodes. */
  type PriceTable = map<string, map<string, real>>

  datatype Body = PriceJson(table: PriceTable) | NotPriceJson

  datatype FetchOutcome = TransportError | Response(status: int, body: Body)

  type Feed = string -> FetchOutcome

  /** The bytes stored under a key: a serialized table, or bytes that do not
      decode as one. */
  datatype Blob = Encoded(table: PriceTable) | Undecodable

  datatype CacheEntry = CacheEntry(blob: Blob, expiresAt: Option<int>)

  type Redis = map<string, CacheEntry>

  /** The one key the price table is cached under, whatever ids are asked for. */
  const CacheKey: string := "crypto_prices"

  const ReferenceCurrency: string := "IDR"

  /** The feed ids `GetPrice` always asks for. */
  const FeedIds: seq<string> := ["bitcoin", "ethereum", "tether"]

  /** Symbol -> feed id; the closed set of priced currencies. */
  const CoinIds: map<string, string> := map["BTC" := "bitcoin", "ETH" := "ethereum", "USDT" := "tether"]

  /** The key of the IDR price inside a feed entry. */
  const QuoteKey: string := "idr"

  const HttpOk: int := 200

  predicate Live(e: CacheEntry, now: int) {
    e.expiresAt.None? || now < e.expiresAt.value
  }

  /** Redis GET: the stored bytes when the key is present and not expired.
      `readFault` stands for an error reported by Redis (a lost connection,
      a timeout); the caller treats it as it treats a missing key. */
  function Get(redis: Redis, key: string, now: int, readFault: bool): (r: Option<Blob>)
    ensures r.Some? <==> !readFault && key in redis && Live(redis[key], now)
    ensures r.Some? ==> r.value == redis[key].blob
  {
    if !readFault && key in redis && Live(redis[key], now) then Some(redis[key].blob) else None
  }

  /** Redis SET with a TTL in seconds: a positive TTL expires the key that
      many seconds later; zero (what a malformed setting parses to) or a
      negative TTL sets no expiry at all. */
  function Expiry(now: int, ttlSeconds: int): (e: Option<int>)
    ensures ttlSeconds > 0 ==> e == Some(now + ttlSeconds)
    ensures ttlSeconds <= 0 ==> e == None
  {
    if ttlSeconds > 0 then Some(now + ttlSeconds) else None
  }

  /** The table a cache read yields: read without error, present, live and
      decodable. */
  function CachedTable(redis: Redis, now: int, readFault: bool): (r: Option<PriceTable>)
    ensures r.Some? <==> !readFault && CacheKey in redis && Live(redis[CacheKey], now) && redis[CacheKey].blob.Encoded?
    ensures r.Some? ==> r.value == redis[CacheKey].blob.table
  {
    match Get(redis, CacheKey, now, readFault)
    case Some(Encoded(t)) => Some(t)
    case _ => None
  }

  /** The request URL `fetchFromAPI` builds: the configured base, the
      price path with the `ids` parameter, and the IDR quote parameter last. */
  function PriceUrl(apiUrl: string, ids: seq<string>): (url: string)
    ensures |url| == |apiUrl| + 36 + |Text.Join(ids, ",")|
    ensures url[..|apiUrl|] == apiUrl
    ensures url[|apiUrl|..|apiUrl| + 18] == "/simple/price?ids="
    ensures url[|apiUrl| + 18..|url| - 18] == Text.Join(ids, ",")
    ensures url[|url| - 18..] == "&vs_currencies=idr"
  {
    apiUrl + "/simple/price?ids=" + Text.Join(ids, ",") + "&vs_currencies=idr"
  }

  /** The `ids` parameter `GetPrice` sends: the three feed ids, comma-separated. */
  lemma FeedIdsQuery()
    ensures Text.Join(FeedIds, ",") == "bitcoin,ethereum,tether"
  {
    assert Text.Join(FeedIds[2..], ",") == "tether";
    assert Text.Join(FeedIds[1..], ",") == "ethereum" + "," + "tether";
  }

  /** The id list can be read back out of the URL: splitting the `ids`
      parameter on commas gives the requested ids. */
  lemma PriceUrlCarriesIds(apiUrl: string, ids: seq<string>)
    requires |ids| >= 1
    requires forall i :: 0 <= i < |ids| ==> ',' !in ids[i]
    ensures var prefix := apiUrl + "/simple/price?ids=";
            var suffix := "&vs_currencies=idr";
            var url := PriceUrl(apiUrl, ids);
            |url| >= |prefix| + |suffix| &&
            url[..|prefix|] == prefix && url[|url| - |suffix|..] == suffix &&
            Text.Split(url[|prefix|..|url| - |suffix|], ',') == ids
  {
    var prefix := apiUrl + "/simple/price?ids=";
    var suffix := "&vs_currencies=idr";
    var joined := Text.Join(ids, ",");
    var url := PriceUrl(apiUrl, ids);
    assert url == prefix + joined + suffix;
    assert url[|prefix|..|url| - |suffix|] == joined;
    Text.SplitJoin(ids, ',');
  }

  /** `fetchFromAPI`: one GET of the price URL; a transport error, a status
      other than 200 (checked before the body) or an undecodable body fails. */
  function FetchFromApi(apiUrl: string, ids: seq<string>, feed: Feed): (r: Result<PriceTable>)
    ensures r.Ok? <==> feed(PriceUrl(apiUrl, ids)).Response? &&
                       feed(PriceUrl(apiUrl, ids)).status == HttpOk &&
                       feed(PriceUrl(apiUrl, ids)).body.PriceJson?
    ensures r.Ok? ==> r.value == feed(PriceUrl(apiUrl, ids)).body.table
    ensures r.Err? ==> r.error.FetchFailed?
    ensures feed(PriceUrl(apiUrl, ids)).Response? && feed(PriceUrl(apiUrl, ids)).status != HttpOk ==>
      r == Err(FetchFailed(BadStatus(feed(PriceUrl(apiUrl, ids)).status)))
  {
    match feed(PriceUrl(apiUrl, ids))
    case TransportError => Err(FetchFailed(Transport))
    case Response(status, body) =>
      if status != HttpOk then Err(FetchFailed(BadStatus(status)))
      else match body
        case NotPriceJson => Err(FetchFailed(BadBody))
        case PriceJson(t) => Ok(t)
  }

  /** `GetCryptoPrices` as a function of the cache and the feed: a live,
      decodable entry read without error is returned as it is; otherwise
      (a miss, an undecodable entry or a Redis read error alike) the feed is
      asked and a successful answer is stored with the configured TTL.
      Yields the result and the new cache. */
  function CacheAside(redis: Redis, now: int, readFault: bool, ttlSeconds: int, apiUrl: string,
                      ids: seq<string>, feed: Feed)
    : (r: (Result<PriceTable>, Redis))
    // a hit is served as it is: no fetch, no write
    ensures CachedTable(redis, now, readFault).Some? ==> r == (Ok(CachedTable(redis, now, readFault).value), redis)
    // a miss, an undecodable entry or a read error goes to the feed
    ensures CachedTable(redis, now, readFault).None? ==> r.0 == FetchFromApi(apiUrl, ids, feed)
    // a read error always goes to the feed, whatever the cache holds
    ensures readFault ==> r.0 == FetchFromApi(apiUrl, ids, feed)
    // a failure stores nothing
    ensures r.0.Err? ==> r.1 == redis
    // a freshly fetched table is stored under the one key with the TTL
    ensures CachedTable(redis, now, readFault).None? && r.0.Ok? ==>
      r.1 == redis[CacheKey := CacheEntry(Encoded(r.0.value), Expiry(now, ttlSeconds))]
    // after success the same table is what an error-free read serves at that time
    ensures r.0.Ok? ==> CachedTable(r.1, now, false) == Some(r.0.value)
    // no other key is touched
    ensures forall k :: k != CacheKey ==> (k in r.1 <==> k in redis) && (k in redis ==> r.1[k] == redis[k])
  {
    match CachedTable(redis, now, readFault)
    case Some(t) => (Ok(t), redis)
    case None =>
      match FetchFromApi(apiUrl, ids, feed)
      case Err(e) => (Err(e), redis)
      case Ok(t) => (Ok(t), redis[CacheKey := CacheEntry(Encoded(t), Expiry(now, ttlSeconds))])
  }

  /** The key does not depend on the ids asked for: once a table has been
      obtained (from the cache or, after a miss or a read error, from the
      feed), any later error-free request at that time, for any ids and
      whatever the feed would say, is served that same table and writes
      nothing. */
  lemma HitServesLastStored(redis: Redis, now: int, readFault: bool, ttlSeconds: int, apiUrl: string,
                            ids: seq<string>, feed: Feed, otherIds: seq<string>, otherFeed: Feed)
    requires CacheAside(redis, now, readFault, ttlSeconds, apiUrl, ids, feed).0.Ok?
    ensures var first := CacheAside(redis, now, readFault, ttlSeconds, apiUrl, ids, feed);
            CacheAside(first.1, now, false, ttlSeconds, apiUrl, otherIds, otherFeed) == first
  {
  }

  /** Asking again at the same time, with Redis in the same condition,
      changes nothing: the answer is the same and so is the cache it leaves
      (a hit stays a hit; a request whose read failed fetches the same table
      again and stores the same entry; a failure stored nothing, so the
      second request fails the same way). */
  lemma CacheAsideIdempotent(redis: Redis, now: int, readFault: bool, ttlSeconds: int, apiUrl: string,
                             ids: seq<string>, feed: Feed)
    ensures var first := CacheAside(redis, now, readFault, ttlSeconds, apiUrl, ids, feed);
            CacheAside(first.1, now, readFault, ttlSeconds, apiUrl, ids, feed) == first
  {
    var first := CacheAside(redis, now, readFault, ttlSeconds, apiUrl, ids, feed);
    if first.0.Ok? {
      if readFault {
        var e := CacheEntry(Encoded(first.0.value), Expiry(now, ttlSeconds));
        assert first.1 == redis[CacheKey := e];
        assert first.1[CacheKey := e] == first.1;
      } else {
        HitServesLastStored(redis, now, readFault, ttlSeconds, apiUrl, ids, feed, ids, feed);
      }
    }
  }

  /** A table stored by a fetch at time `t0` is served, to error-free reads,
      at every later time before `t0 + ttl` and no longer from then on; with
      a TTL of zero or less it is served at every time. */
  lemma StoredTableLifetime(redis: Redis, t0: int, readFault: bool, ttlSeconds: int, apiUrl: string,
                            ids: seq<string>, feed: Feed, t: int)
    requires CachedTable(redis, t0, readFault).None?
    requires FetchFromApi(apiUrl, ids, feed).Ok?
    ensures var r := CacheAside(redis, t0, readFault, ttlSeconds, apiUrl, ids, feed);
            CachedTable(r.1, t, false) == if ttlSeconds <= 0 || t < t0 + ttlSeconds then Some(r.0.value) else None
  {
  }

  /** After `ClearCache` the next request has to go to the feed. */
  lemma ClearedCacheFetches(redis: Redis, now: int, readFault: bool, ttlSeconds: int, apiUrl: string,
                            ids: seq<string>, feed: Feed)
    ensures CacheAside(redis - {CacheKey}, now, readFault, ttlSeconds, apiUrl, ids, feed).0 == FetchFromApi(apiUrl, ids, feed)
  {
    assert CacheKey !in redis - {CacheKey};
  }

  /** The price of an upper-cased symbol in a table: unsupported symbols
      fail whatever the table holds; supported ones need both their feed id
      and the "idr" quote. */
  function ExtractPrice(symbol: string, table: PriceTable): (r: Result<real>)
    ensures symbol !in CoinIds ==> r == Err(UnsupportedCurrency(symbol))
    ensures symbol in CoinIds ==>
      (r.Ok? <==> CoinIds[symbol] in table && QuoteKey in table[CoinIds[symbol]])
    ensures r.Ok? ==> r.value == table[CoinIds[symbol]][QuoteKey]
    ensures symbol in CoinIds && r.Err? ==> r == Err(PriceNotFound(symbol))
  {
    if symbol !in CoinIds then Err(UnsupportedCurrency(symbol))
    else
      var id := CoinIds[symbol];
      if id in table && QuoteKey in table[id] then Ok(table[id][QuoteKey])
      else Err(PriceNotFound(symbol))
  }

  /** The price `GetPrice` reports for a currency, given the outcome of the
      cache-aside table request. IDR is 1 whatever that outcome; for any
      other symbol a failed table request is reported first, before the
      symbol is even checked against the supported set. */
  function UnitPrice(currency: string, tables: Result<PriceTable>): (r: Result<real>)
    ensures Text.ToUpper(currency) == ReferenceCurrency ==> r == Ok(1.0)
    ensures Text.ToUpper(currency) != ReferenceCurrency && tables.Err? ==> r == Err(tables.error)
    ensures Text.ToUpper(currency) != ReferenceCurrency && tables.Ok? ==>
      r == ExtractPrice(Text.ToUpper(currency), tables.value)
  {
    var symbol := Text.ToUpper(currency);
    if symbol == ReferenceCurrency then Ok(1.0)
    else match tables
      case Err(e) => Err(e)
      case Ok(t) => ExtractPrice(symbol, t)
  }

  /** `GetPrice` as a function of the cache and the feed: the result and
      the new cache. */
  function PriceLookup(redis: Redis, now: int, readFault: bool, ttlSeconds: int, apiUrl: string,
                       currency: string, feed: Feed)
    : (r: (Result<real>, Redis))
    ensures r.0 == UnitPrice(currency, CacheAside(redis, now, readFault, ttlSeconds, apiUrl, FeedIds, feed).0)
    ensures Text.ToUpper(currency) == ReferenceCurrency ==> r.1 == redis
    ensures Text.ToUpper(currency) != ReferenceCurrency ==>
      r.1 == CacheAside(redis, now, readFault, ttlSeconds, apiUrl, FeedIds, feed).1
  {
    if Text.ToUpper(currency) == ReferenceCurrency then (Ok(1.0), redis)
    else
      var c := CacheAside(redis, now, readFault, ttlSeconds, apiUrl, FeedIds, feed);
      (UnitPrice(currency, c.0), c.1)
  }

  /** "IDR" in any letter case is priced 1 and neither reads nor writes the
      cache, whatever the cache holds and whatever the feed would answer. */
  lemma ReferenceCurrencyShortCircuits(redis: Redis, now: int, readFault: bool, ttlSeconds: int, apiUrl: string,
                                       currency: string, feed: Feed)
    requires |currency| == 3 && currency[0] in "iI\U{131}" && currency[1] in "dD" && currency[2] in "rR"
    ensures PriceLookup(redis, now, readFault, ttlSeconds, apiUrl, currency, feed) == (Ok(1.0), redis)
  {
    Text.IsIdrInAnyCase(currency);
  }

  /** A symbol outside IDR, BTC, ETH and USDT never gets a price, yet the
      cache is consulted (and filled on a miss) before it is rejected, and
      a fetch failure is what gets reported. */
  lemma UnsupportedSymbolConsultsCacheFirst(redis: Redis, now: int, readFault: bool, ttlSeconds: int,
                                            apiUrl: string, currency: string, feed: Feed)
    requires Text.ToUpper(currency) != ReferenceCurrency && Text.ToUpper(currency) !in CoinIds
    ensures var c := CacheAside(redis, now, readFault, ttlSeconds, apiUrl, FeedIds, feed);
            var r := PriceLookup(redis, now, readFault, ttlSeconds, apiUrl, currency, feed);
            r.0.Err? && r.1 == c.1 &&
            r.0 == (if c.0.Err? then Err(c.0.error) else Err(UnsupportedCurrency(Text.ToUpper(currency))))
  {
  }

  class CoinGeckoService {
    const apiUrl: string
    /** `config.GetCacheDuration()` in seconds (60 by default). */
    const cacheTtl: int
    /** The Redis keyspace this service reads and writes. */
    var redis: Redis

    constructor (apiUrl: string, cacheTtl: int, redis: Redis)
      ensures this.apiUrl == apiUrl && this.cacheTtl == cacheTtl && this.redis == redis
    {
      this.apiUrl, this.cacheTtl, this.redis := apiUrl, cacheTtl, redis;
    }

    /** `readFault` stands for an error the GET reports; the SET's own
        error is ignored by the source and not modelled. */
    method GetCryptoPrices(currencies: seq<string>, now: int, readFault: bool, feed: Feed) returns (r: Result<PriceTable>)
      modifies this
      ensures (r, redis) == CacheAside(old(redis), now, readFault, cacheTtl, apiUrl, currencies, feed)
    {
      var cached := Get(redis, CacheKey, now, readFault);
      if cached.Some? && cached.value.Encoded? {
        return Ok(cached.value.table);
      }
      var data := FetchFromApi(apiUrl, currencies, feed);
      if data.Err? {
        return data;
      }
      redis := redis[CacheKey := CacheEntry(Encoded(data.value), Expiry(now, cacheTtl))];
      r := data;
    }

    method GetPrice(currency: string, now: int, readFault: bool, feed: Feed) returns (r: Result<real>)
      modifies this
      ensures (r, redis) == PriceLookup(old(redis), now, readFault, cacheTtl, apiUrl, currency, feed)
    {
      var symbol := Text.ToUpper(currency);
      if symbol == ReferenceCurrency {
        return Ok(1.0);
      }
      var prices := GetCryptoPrices(FeedIds, now, readFault, feed);
      if prices.Err? {
        return Err(prices.error);
      }
      r := ExtractPrice(symbol, prices.value);
    }

    /** Deletes the one cache key; `fault` stands for an error from Redis. */
    method ClearCache(fault: bool) returns (err: Option<Error>)
      modifies this
      ensures err.Some? <==> fault
      ensures err.Some? ==> err.value == CacheUnavailable && redis == old(redis)
      ensures err.None? ==> redis == old(redis) - {CacheKey}
    {
      if fault {
        err := Some(CacheUnavailable);
      } else {
        redis := redis - {CacheKey};
        err := None;
      }
    }
  }
}
