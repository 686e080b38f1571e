/** `GET /transactions`: the pagination arithmetic and the branch from the
    repository outcomes to the reply.

    The query parameters arrive as the values `strconv.Atoi` returns for
    them (0 for a malformed or missing-and-defaulted string, the nearest
    64-bit bound for one out of range); the parse error itself is ignored,
    as in the handler. Go's `int` is 64 bits wide. */
module TransactionHandler {
  import opened Common
  import opened TransactionModel
  import TransactionRepo

  const StatusOk: int := 200
  const StatusUnauthorized: int := 401
  const StatusInternalServerError: int := 500

  const DefaultLimit: int := 20
  const MaxLimit: int := 100

  const MinInt: int := -0x8000_0000_0000_0000
  const MaxInt: int := 0x7fff_ffff_ffff_ffff
  const Modulus: int := 0x1_0000_0000_0000_0000

  predicate IsInt(x: int) {
    MinInt <= x <= MaxInt
  }

  /** The two's-complement wrap-around of Go's 64-bit `int` arithmetic. */
  function Wrap(x: int): (r: int)
    ensures IsInt(r)
    ensures (x - r) % Modulus == 0
    ensures IsInt(x) ==> r == x
  {
    (x - MinInt) % Modulus + MinInt
  }

  /** A limit outside 1..100 (0 when it did not parse) becomes 20. */
  function ClampLimit(parsed: int): (limit: int)
    ensures 1 <= limit <= MaxLimit
    ensures 1 <= parsed <= MaxLimit ==> limit == parsed
    ensures !(1 <= parsed <= MaxLimit) ==> limit == DefaultLimit
  {
    if parsed <= 0 || parsed > MaxLimit then DefaultLimit else parsed
  }

  /** A page below 1 (0 when it did not parse) becomes 1. */
  function ClampPage(parsed: int): (page: int)
    ensures page >= 1
    ensures parsed >= 1 ==> page == parsed
    ensures parsed < 1 ==> page == 1
  {
    if parsed <= 0 then 1 else parsed
  }

  /** `offset := (page - 1) * limit` as the handler computes it, in 64-bit
      arithmetic: the product wraps for a large enough page. */
  function OffsetAsWritten(page: int, limit: int): (offset: int)
    requires IsInt(page) && page >= 1 && 1 <= limit <= MaxLimit
    ensures IsInt(offset)
    ensures (page - 1) * limit <= MaxInt ==> offset == (page - 1) * limit
  {
    Wrap((page - 1) * limit)
  }

  /** A page number Atoi accepts, 2^59 + 1, whose offset at the default
      limit wraps past 2^63 to a negative number; the repository then leaves
      the OFFSET clause out and the reply carries the first page. */
  lemma OffsetAsWrittenWraps(log: seq<Transaction>, userId: Uuid)
    requires TransactionRepo.Chronological(log)
    ensures var page := 576460752303423489;
            IsInt(page) && ClampPage(page) == page &&
            OffsetAsWritten(page, DefaultLimit) == -6917529027641081856 &&
            TransactionRepo.FindByUserID(log, userId, DefaultLimit, OffsetAsWritten(page, DefaultLimit), false) ==
            TransactionRepo.FindByUserID(log, userId, DefaultLimit, 0, false)
  {
    var page := 576460752303423489;
    assert (page - 1) * DefaultLimit == 11529215046068469760;
    assert Wrap(11529215046068469760) == -6917529027641081856;
  }

  /** The offset with the product saturating at the largest `int` instead of
      wrapping: never negative, exact whenever the product fits. */
  function Offset(page: int, limit: int): (offset: int)
    requires page >= 1 && 1 <= limit <= MaxLimit
    ensures 0 <= offset <= MaxInt
    ensures (page - 1) * limit <= MaxInt ==> offset == (page - 1) * limit
    ensures (page - 1) * limit > MaxInt ==> offset == MaxInt
  {
    var exact := (page - 1) * limit;
    if exact > MaxInt then MaxInt else exact
  }

  /** The number of pages, `(total + limit - 1) / limit`: the ceiling of
      total / limit, so the pages before the last hold fewer than `total`
      records and all of them hold at least `total`; it is 0 exactly when
      there are no records. */
  function TotalPages(total: int, limit: int): (n: int)
    requires total >= 0 && limit >= 1
    ensures n >= 0 && (n - 1) * limit < total <= n * limit
    ensures n == 0 <==> total == 0
  {
    var a := total + limit - 1;
    var rem := a % limit;
    assert a == a / limit * limit + rem && 0 <= rem < limit;
    assert (a / limit - 1) * limit == a / limit * limit - limit;
    a / limit
  }

  datatype Pagination = Pagination(total: int, page: int, limit: int, totalPages: int)

  datatype Body =
    | ErrorMessage(message: string)
    | Listing(transactions: seq<Transaction>, pagination: Pagination)

  /** The status and JSON body written, and the repository queries made, in
      order. */
  datatype Reply = Reply(status: int, body: Body, queries: seq<DbOp>)

  /** `GetTransactions`, with the saturating offset; `listFault` and
      `countFault` stand for errors from the two queries. */
  function GetTransactions(auth: Auth, parsedLimit: int, parsedPage: int, log: seq<Transaction>,
                           listFault: bool, countFault: bool): (r: Reply)
    requires TransactionRepo.Chronological(log)
    // an unauthenticated caller is refused before any query
    ensures r.status == StatusUnauthorized <==> auth.Unauthenticated?
    ensures auth.Unauthenticated? ==> r == Reply(StatusUnauthorized, ErrorMessage(auth.message), [])
    // a failed query is a server error; the count is not run after a failed listing
    ensures r.status == StatusInternalServerError <==> auth.Authenticated? && (listFault || countFault)
    ensures auth.Authenticated? && listFault ==>
      r == Reply(StatusInternalServerError, ErrorMessage("Failed to fetch transactions"), [SelectTransaction])
    ensures auth.Authenticated? && !listFault && countFault ==>
      r == Reply(StatusInternalServerError, ErrorMessage("Failed to count transactions"), [SelectTransaction, CountTransactions])
    // otherwise the reply is the page asked for, with the clamped parameters and the count
    ensures r.status == StatusOk <==> auth.Authenticated? && !listFault && !countFault
    ensures r.status == StatusOk ==>
      r.queries == [SelectTransaction, CountTransactions] && r.body.Listing? &&
      var p := r.body.pagination;
      p.limit == ClampLimit(parsedLimit) && p.page == ClampPage(parsedPage) &&
      p.total == TransactionRepo.CountOf(log, auth.userId) &&
      p.totalPages == TotalPages(p.total, p.limit) &&
      Ok(r.body.transactions) ==
        TransactionRepo.FindByUserID(log, auth.userId, p.limit, Offset(p.page, p.limit), false)
  {
    match auth
    case Unauthenticated(message) => Reply(StatusUnauthorized, ErrorMessage(message), [])
    case Authenticated(userId) =>
      var limit := ClampLimit(parsedLimit);
      var page := ClampPage(parsedPage);
      var offset := Offset(page, limit);
      match TransactionRepo.FindByUserID(log, userId, limit, offset, listFault)
      case Err(_) => Reply(StatusInternalServerError, ErrorMessage("Failed to fetch transactions"), [SelectTransaction])
      case Ok(transactions) =>
        match TransactionRepo.CountByUserID(log, userId, countFault)
        case Err(_) =>
          Reply(StatusInternalServerError, ErrorMessage("Failed to count transactions"), [SelectTransaction, CountTransactions])
        case Ok(total) =>
          Reply(StatusOk, Listing(transactions, Pagination(total, page, limit, TotalPages(total, limit))),
                [SelectTransaction, CountTransactions])
  }

  lemma MulMonotone(a: int, b: int, k: int)
    requires a >= b && k >= 0
    ensures a * k >= b * k
  {
  }

  /** The pages partition the user's history: a page up to `total_pages`
      holds `limit` records, or what remains on the last page, and any page
      after it is empty (for a history whose length fits in an `int`). */
  lemma PageSizes(auth: Auth, parsedLimit: int, parsedPage: int, log: seq<Transaction>)
    requires TransactionRepo.Chronological(log) && |log| <= MaxInt
    ensures var r := GetTransactions(auth, parsedLimit, parsedPage, log, false, false);
            r.status == StatusOk ==>
              var p := r.body.pagination;
              |r.body.transactions| ==
                if p.page > p.totalPages then 0
                else if p.total - (p.page - 1) * p.limit < p.limit then p.total - (p.page - 1) * p.limit
                else p.limit
  {
    var r := GetTransactions(auth, parsedLimit, parsedPage, log, false, false);
    if r.status == StatusOk {
      var p := r.body.pagination;
      var h := TransactionRepo.History(log, auth.userId);
      TransactionRepo.CountIsHistoryLength(log, auth.userId);
      assert p.total == |h|;
      if p.page > p.totalPages {
        MulMonotone(p.page - 1, p.totalPages, p.limit);
      } else {
        MulMonotone(p.totalPages - 1, p.page - 1, p.limit);
      }
    }
  }
}
