/** The transaction repository: the `transactions` table as an append-only
    log in insertion order, with the store's creation clock. `Create`
    appends; the finds and the count are functions of the log. Every
    operation takes a `fault` flag standing for an error reported by the
    database. */
module TransactionRepo {
  import opened Common
  import opened TransactionModel

  predicate HasId(log: seq<Transaction>, id: Uuid) {
    exists i :: 0 <= i < |log| && log[i].id == id
  }

  /** A record's ID and creation stamp. The pairwise constraints below
      are stated over these, so that they are instantiated only for pairs
      of records whose ID or stamp a proof mentions. */
  function IdOf(t: Transaction): Uuid { t.id }

  function StampOf(t: Transaction): nat { t.createdAt }

  /** The table's primary key: every row has an ID and no two rows share one. */
  ghost predicate PrimaryKeyed(log: seq<Transaction>) {
    && (forall i :: 0 <= i < |log| ==> log[i].id != NilId)
    && (forall i, j {:trigger IdOf(log[i]), IdOf(log[j])} :: 0 <= i < j < |log| ==> IdOf(log[i]) != IdOf(log[j]))
  }

  /** Creation stamps strictly increase along the log. */
  ghost predicate Chronological(log: seq<Transaction>) {
    forall i, j {:trigger StampOf(log[i]), StampOf(log[j])} :: 0 <= i < j < |log| ==> StampOf(log[i]) < StampOf(log[j])
  }

  /** Every stamp in the log lies before the store's clock. */
  ghost predicate StampedBefore(log: seq<Transaction>, clock: nat) {
    forall i :: 0 <= i < |log| ==> log[i].createdAt < clock
  }

  /** Newest first: creation stamps strictly decrease. */
  ghost predicate NewestFirst(s: seq<Transaction>) {
    forall i, j {:trigger StampOf(s[i]), StampOf(s[j])} :: 0 <= i < j < |s| ==> StampOf(s[i]) > StampOf(s[j])
  }

  /** `Create`: the ID hook runs and the store stamps the record with its
      clock; the record is appended unless the database fails or its ID is
      taken. Yields the stored record, the error, the new log and clock. */
  function Append(log: seq<Transaction>, clock: nat, t: Transaction, generated: Uuid, fault: bool)
    : (r: (Transaction, Option<Error>, seq<Transaction>, nat))
    requires generated != NilId
    ensures r.0 == BeforeCreate(t, generated).(createdAt := clock)
    ensures r.1.None? <==> !fault && !HasId(log, r.0.id)
    ensures r.1.Some? ==> r.1.value == StorageFailure(InsertTransaction) && r.2 == log && r.3 == clock
    ensures r.1.None? ==> r.2 == log + [r.0] && r.3 == clock + 1
  {
    var created := BeforeCreate(t, generated).(createdAt := clock);
    if fault || HasId(log, created.id) then (created, Some(StorageFailure(InsertTransaction)), log, clock)
    else (created, None, log + [created], clock + 1)
  }

  /** An append keeps the primary key and the creation order: the new
      record has a fresh ID and is stamped with the clock, which then moves
      past it. */
  lemma AppendKeepsShape(log: seq<Transaction>, clock: nat, t: Transaction, generated: Uuid, fault: bool)
    requires generated != NilId
    requires PrimaryKeyed(log) && Chronological(log) && StampedBefore(log, clock)
    ensures var r := Append(log, clock, t, generated, fault);
            PrimaryKeyed(r.2) && Chronological(r.2) && StampedBefore(r.2, r.3)
  {
    var r := Append(log, clock, t, generated, fault);
    if r.1.None? {
      RecordKeepsShape(log, clock, r.0);
    }
  }

  /** Appending a record that has a fresh ID and the clock's stamp keeps
      the primary key and the creation order. */
  lemma RecordKeepsShape(log: seq<Transaction>, clock: nat, rec: Transaction)
    requires PrimaryKeyed(log) && Chronological(log) && StampedBefore(log, clock)
    requires rec.id != NilId && !HasId(log, rec.id) && rec.createdAt == clock
    ensures PrimaryKeyed(log + [rec]) && Chronological(log + [rec]) && StampedBefore(log + [rec], clock + 1)
  {
    var log' := log + [rec];
    forall i, j | 0 <= i < j < |log'| ensures IdOf(log'[i]) != IdOf(log'[j]) && StampOf(log'[i]) < StampOf(log'[j]) {
      if j < |log| {
        assert IdOf(log[i]) != IdOf(log[j]) && StampOf(log[i]) < StampOf(log[j]);
      } else {
        assert !(0 <= i < |log| && log[i].id == rec.id);
      }
    }
  }

  /** The records of one user, oldest first. */
  function ByUser(log: seq<Transaction>, userId: Uuid): (r: seq<Transaction>)
    ensures forall x :: x in r <==> x in log && x.userId == userId
  {
    if log == [] then []
    else (if log[0].userId == userId then [log[0]] else []) + ByUser(log[1..], userId)
  }

  /** A user's records keep the log's creation order. */
  lemma {:induction false} ByUserChronological(log: seq<Transaction>, userId: Uuid)
    requires Chronological(log)
    ensures Chronological(ByUser(log, userId))
  {
    if log != [] {
      var tail := log[1..];
      TailChronological(log);
      ByUserChronological(tail, userId);
      var rest := ByUser(tail, userId);
      forall x | x in rest ensures StampOf(log[0]) < StampOf(x) {
        var j :| 0 <= j < |tail| && tail[j] == x;
        assert log[j + 1] == x;
        assert StampOf(log[0]) < StampOf(log[j + 1]);
      }
      if log[0].userId == userId {
        ConsChronological(log[0], rest);
      }
    }
  }

  lemma TailChronological(log: seq<Transaction>)
    requires log != [] && Chronological(log)
    ensures Chronological(log[1..])
  {
    var tail := log[1..];
    forall i, j | 0 <= i < j < |tail| ensures StampOf(tail[i]) < StampOf(tail[j]) {
      assert tail[i] == log[i + 1] && tail[j] == log[j + 1];
      assert StampOf(log[i + 1]) < StampOf(log[j + 1]);
    }
  }

  lemma ConsChronological(a: Transaction, rest: seq<Transaction>)
    requires Chronological(rest)
    requires forall x :: x in rest ==> StampOf(a) < StampOf(x)
    ensures Chronological([a] + rest)
  {
    var r := [a] + rest;
    forall i, j | 0 <= i < j < |r| ensures StampOf(r[i]) < StampOf(r[j]) {
      var y := rest[j - 1];
      assert r[j] == y;
      assert y in rest;
      if i > 0 {
        assert r[i] == rest[i - 1];
        assert StampOf(rest[i - 1]) < StampOf(y);
      }
    }
  }

  function Reverse(s: seq<Transaction>): (r: seq<Transaction>)
    ensures |r| == |s|
    ensures forall i :: 0 <= i < |s| ==> r[i] == s[|s| - 1 - i]
  {
    if s == [] then [] else Reverse(s[1..]) + [s[0]]
  }

  /** A user's whole history as `ORDER BY created_at DESC` returns it. */
  function History(log: seq<Transaction>, userId: Uuid): (r: seq<Transaction>)
    ensures forall x :: x in r <==> x in log && x.userId == userId
    ensures Chronological(log) ==> NewestFirst(r)
  {
    var mine := ByUser(log, userId);
    assert Chronological(log) ==> Chronological(mine) by {
      if Chronological(log) {
        ByUserChronological(log, userId);
      }
    }
    var r := Reverse(mine);
    assert forall x :: x in r <==> x in mine by {
      forall x ensures x in r <==> x in mine {
        if x in r {
          var i :| 0 <= i < |r| && r[i] == x;
          assert mine[|mine| - 1 - i] == x;
        }
        if x in mine {
          var i :| 0 <= i < |mine| && mine[i] == x;
          assert r[|mine| - 1 - i] == x;
        }
      }
    }
    r
  }

  /** `LIMIT limit OFFSET offset` when `limit > 0`, the whole list otherwise.
      gorm writes the OFFSET clause only for a positive offset, so a
      negative one reads from the start. */
  function Window(s: seq<Transaction>, limit: int, offset: int): (r: seq<Transaction>)
    ensures limit <= 0 ==> r == s
    ensures limit > 0 ==> |r| <= limit
    ensures limit > 0 ==>
      var start := if offset <= 0 then 0 else offset;
      |r| == (if start >= |s| then 0 else if |s| - start < limit then |s| - start else limit) &&
      forall i :: 0 <= i < |r| ==> r[i] == s[start + i]
  {
    if limit <= 0 then s
    else
      var start := if offset <= 0 then 0 else if offset > |s| then |s| else offset;
      var end := if |s| - start < limit then |s| else start + limit;
      s[start..end]
  }

  /** `FindByUserID`: only that user's records, newest first, windowed by
      `limit`/`offset` only when `limit > 0`. */
  function FindByUserID(log: seq<Transaction>, userId: Uuid, limit: int, offset: int, fault: bool)
    : (r: Result<seq<Transaction>>)
    requires Chronological(log)
    ensures r.Err? <==> fault
    ensures r.Err? ==> r.error == StorageFailure(SelectTransaction)
    ensures r.Ok? ==> forall x :: x in r.value ==> x in log && x.userId == userId
    ensures r.Ok? ==> NewestFirst(r.value)
    ensures r.Ok? && limit > 0 ==> |r.value| <= limit
    ensures r.Ok? && limit <= 0 ==> forall x :: x in r.value <==> x in log && x.userId == userId
    // exactly the page of the user's history that `limit` and `offset` select
    ensures r.Ok? ==> r.value == Window(History(log, userId), limit, offset)
  {
    if fault then Err(StorageFailure(SelectTransaction))
    else
      var h := History(log, userId);
      var w := Window(h, limit, offset);
      assert forall x :: x in w ==> x in h;
      Ok(w)
  }

  function FirstWithId(log: seq<Transaction>, id: Uuid): (r: Option<Transaction>)
    ensures r.Some? <==> HasId(log, id)
    ensures r.Some? ==> r.value in log && r.value.id == id
  {
    if log == [] then None
    else if log[0].id == id then Some(log[0])
    else
      var rest := FirstWithId(log[1..], id);
      assert HasId(log, id) <==> HasId(log[1..], id) by {
        if HasId(log, id) {
          var i :| 0 <= i < |log| && log[i].id == id;
          assert log[1..][i - 1].id == id;
        }
        if HasId(log[1..], id) {
          var i :| 0 <= i < |log[1..]| && log[1..][i].id == id;
          assert log[i + 1].id == id;
        }
      }
      rest
  }

  /** `FindByID`: the record with that ID, `RecordNotFound` when there is
      none, or a database error. */
  function FindByID(log: seq<Transaction>, id: Uuid, fault: bool): (r: Result<Transaction>)
    ensures fault ==> r == Err(StorageFailure(SelectTransaction))
    ensures !fault ==> (r.Ok? <==> HasId(log, id))
    ensures !fault && !HasId(log, id) ==> r == Err(RecordNotFound)
    ensures r.Ok? ==> r.value in log && r.value.id == id
  {
    if fault then Err(StorageFailure(SelectTransaction))
    else match FirstWithId(log, id)
      case Some(t) => Ok(t)
      case None => Err(RecordNotFound)
  }

  /** Under the primary key the record found is the only one with that ID. */
  lemma FindByIDIsUnique(log: seq<Transaction>, k: nat)
    requires PrimaryKeyed(log) && k < |log|
    ensures FindByID(log, log[k].id, false) == Ok(log[k])
  {
    var r := FindByID(log, log[k].id, false);
    assert HasId(log, log[k].id);
    var j :| 0 <= j < |log| && log[j] == r.value;
    assert IdOf(log[j]) == IdOf(log[k]);
  }

  /** `SELECT count(*) ... WHERE user_id = ?`. */
  function CountOf(log: seq<Transaction>, userId: Uuid): (n: nat)
    ensures n <= |log|
  {
    if log == [] then 0
    else (if log[0].userId == userId then 1 else 0) + CountOf(log[1..], userId)
  }

  function CountByUserID(log: seq<Transaction>, userId: Uuid, fault: bool): (r: Result<int>)
    ensures r.Err? <==> fault
    ensures r.Err? ==> r.error == StorageFailure(CountTransactions)
    ensures r.Ok? ==> 0 <= r.value <= |log|
    // the count is the length of the unpaginated listing
    ensures r.Ok? ==> r.value == |History(log, userId)|
  {
    CountIsHistoryLength(log, userId);
    if fault then Err(StorageFailure(CountTransactions)) else Ok(CountOf(log, userId))
  }

  /** The count agrees with the unpaginated listing: it is the number of the
      user's records. */
  lemma {:induction false} CountIsHistoryLength(log: seq<Transaction>, userId: Uuid)
    ensures CountOf(log, userId) == |ByUser(log, userId)| == |History(log, userId)|
  {
    if log != [] {
      CountIsHistoryLength(log[1..], userId);
    }
  }

  class TransactionRepository {
    var log: seq<Transaction>
    var clock: nat

    ghost predicate Valid()
      reads this
    {
      PrimaryKeyed(log) && Chronological(log) && StampedBefore(log, clock)
    }

    constructor (initial: seq<Transaction>, start: nat)
      requires PrimaryKeyed(initial) && Chronological(initial) && StampedBefore(initial, start)
      ensures Valid() && log == initial && clock == start
    {
      log, clock := initial, start;
    }

    /** Appends one record; records already in the log are never changed. */
    method Create(t: Transaction, generated: Uuid, fault: bool) returns (created: Transaction, err: Option<Error>)
      requires Valid() && generated != NilId
      modifies this
      ensures Valid()
      ensures (created, err, log, clock) == Append(old(log), old(clock), t, generated, fault)
      ensures log[..|old(log)|] == old(log)
    {
      AppendKeepsShape(log, clock, t, generated, fault);
      created := BeforeCreate(t, generated).(createdAt := clock);
      if fault || HasId(log, created.id) {
        err := Some(StorageFailure(InsertTransaction));
      } else {
        log := log + [created];
        clock := clock + 1;
        err := None;
      }
    }
  }
}
