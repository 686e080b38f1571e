/** The wallet repository: the `wallets` table as an in-memory sequence of
    rows in storage order. Queries are functions of the rows; `Create`,
    `Update` and `UpdateBalance` change the table in place. Every operation
    takes a `fault` flag standing for an error reported by the database. */
module WalletRepo {
  import opened Common
  import opened WalletModel

  predicate Keyed(w: Wallet, userId: Uuid, currency: string) {
    w.userId == userId && w.currency == currency
  }

  predicate HasId(rows: seq<Wallet>, id: Uuid) {
    exists i :: 0 <= i < |rows| && rows[i].id == id
  }

  /** A row's primary key, and the (user, currency) pair a wallet is for.
      The uniqueness predicates below are stated over these, so that a
      proof compares two rows only when it names their keys. */
  function IdOf(w: Wallet): Uuid {
    w.id
  }

  function KeyOf(w: Wallet): (Uuid, string) {
    (w.userId, w.currency)
  }

  /** The table's primary key: every row has an ID and no two rows share one. */
  ghost predicate PrimaryKeyed(rows: seq<Wallet>) {
    && (forall i :: 0 <= i < |rows| ==> rows[i].id != NilId)
    && (forall i, j {:trigger IdOf(rows[i]), IdOf(rows[j])} :: 0 <= i < j < |rows| ==> IdOf(rows[i]) != IdOf(rows[j]))
  }

  /** At most one wallet per (user, currency). The table has no index that
      enforces this; the ledger service keeps it (see module Ledger). */
  ghost predicate OneWalletPerKey(rows: seq<Wallet>) {
    forall i, j {:trigger KeyOf(rows[i]), KeyOf(rows[j])} :: 0 <= i < j < |rows| ==> KeyOf(rows[i]) != KeyOf(rows[j])
  }

  /** What `First` returns for a (user, currency) filter: gorm orders by the
      primary key, so among the matching rows it is the one with the least ID. */
  function FirstByKey(rows: seq<Wallet>, userId: Uuid, currency: string): (r: Option<Wallet>)
    ensures r.None? <==> forall i :: 0 <= i < |rows| ==> !Keyed(rows[i], userId, currency)
    ensures r.Some? ==> r.value in rows && Keyed(r.value, userId, currency)
    ensures r.Some? ==>
      forall i :: 0 <= i < |rows| && Keyed(rows[i], userId, currency) ==> r.value.id <= rows[i].id
  {
    if rows == [] then None
    else
      var rest := FirstByKey(rows[1..], userId, currency);
      assert forall i :: 1 <= i < |rows| ==> rows[i] == rows[1..][i - 1];
      if !Keyed(rows[0], userId, currency) then rest
      else if rest.Some? && rest.value.id < rows[0].id then rest
      else Some(rows[0])
  }

  /** When the service's invariant holds, the match is the one row with that key. */
  lemma FirstByKeyIsTheWallet(rows: seq<Wallet>, k: nat)
    requires OneWalletPerKey(rows)
    requires k < |rows|
    ensures FirstByKey(rows, rows[k].userId, rows[k].currency) == Some(rows[k])
  {
    var r := FirstByKey(rows, rows[k].userId, rows[k].currency);
    var j :| 0 <= j < |rows| && rows[j] == r.value;
    assert KeyOf(rows[j]) == KeyOf(rows[k]);
  }

  /** `FindByUserIDAndCurrency`: a database error is returned as an error;
      no matching row is NOT an error, it is `Ok(None)`. */
  function FindByUserIDAndCurrency(rows: seq<Wallet>, userId: Uuid, currency: string, fault: bool)
    : (r: Result<Option<Wallet>>)
    ensures r.Err? <==> fault
    ensures r.Err? ==> r.error == StorageFailure(SelectWallet)
    ensures r == Ok(None) <==> !fault && forall i :: 0 <= i < |rows| ==> !Keyed(rows[i], userId, currency)
    ensures r.Ok? && r.value.Some? ==>
      r.value.value in rows && r.value.value.userId == userId && r.value.value.currency == currency
  {
    if fault then Err(StorageFailure(SelectWallet)) else Ok(FirstByKey(rows, userId, currency))
  }

  /** The rows of one user, in storage order. */
  function OwnedBy(rows: seq<Wallet>, userId: Uuid): (r: seq<Wallet>)
    ensures forall w :: w in r <==> w in rows && w.userId == userId
    ensures |r| <= |rows|
  {
    if rows == [] then []
    else (if rows[0].userId == userId then [rows[0]] else []) + OwnedBy(rows[1..], userId)
  }

  /** `FindAllByUserID`: exactly the wallets of that user, or a database error. */
  function FindAllByUserID(rows: seq<Wallet>, userId: Uuid, fault: bool): (r: Result<seq<Wallet>>)
    ensures r.Err? <==> fault
    ensures r.Err? ==> r.error == StorageFailure(SelectWallet)
    ensures r.Ok? ==> forall w :: w in r.value <==> w in rows && w.userId == userId
  {
    if fault then Err(StorageFailure(SelectWallet)) else Ok(OwnedBy(rows, userId))
  }

  /** The table after `UPDATE wallets SET balance = v WHERE id = walletId`:
      every row with that ID gets the new balance, whatever its old balance
      and whatever the sign of `v`; nothing else changes. */
  function SetBalance(rows: seq<Wallet>, walletId: Uuid, v: real): (r: seq<Wallet>)
    ensures |r| == |rows|
    ensures forall i :: 0 <= i < |rows| ==>
      r[i] == if rows[i].id == walletId then rows[i].(balance := v) else rows[i]
  {
    seq(|rows|, i requires 0 <= i < |rows| => if rows[i].id == walletId then rows[i].(balance := v) else rows[i])
  }

  /** The table after one `Save` of a record whose ID it already holds. */
  function Replace(rows: seq<Wallet>, w: Wallet): (r: seq<Wallet>)
    ensures |r| == |rows|
    ensures forall i :: 0 <= i < |rows| ==> r[i] == if rows[i].id == w.id then w else rows[i]
  {
    if rows == [] then []
    else [if rows[0].id == w.id then w else rows[0]] + Replace(rows[1..], w)
  }

  /** `Create`: the ID hook runs, then the row is inserted unless the
      database fails or the primary key is already taken. Yields the record
      as the hook left it, the error, and the new table. */
  function Insert(rows: seq<Wallet>, w: Wallet, generated: Uuid, fault: bool)
    : (r: (Wallet, Option<Error>, seq<Wallet>))
    requires generated != NilId
    ensures r.0 == BeforeCreate(w, generated)
    ensures r.1.None? <==> !fault && !HasId(rows, r.0.id)
    ensures r.1.Some? ==> r.1.value == StorageFailure(InsertWallet) && r.2 == rows
    ensures r.1.None? ==> r.2 == rows + [r.0]
  {
    var created := BeforeCreate(w, generated);
    if fault || HasId(rows, created.id) then (created, Some(StorageFailure(InsertWallet)), rows)
    else (created, None, rows + [created])
  }

  /** `Update` is gorm's `Save`: a record without an ID is created (hook
      included); otherwise the row with its ID is overwritten with all its
      fields, and inserted when no row has that ID. */
  function Save(rows: seq<Wallet>, w: Wallet, generated: Uuid, fault: bool)
    : (r: (Wallet, Option<Error>, seq<Wallet>))
    requires generated != NilId
    ensures w.id == NilId ==> r == Insert(rows, w, generated, fault)
    ensures w.id != NilId ==> r.0 == w
    ensures w.id != NilId && fault ==> r.1 == Some(StorageFailure(UpdateWallet)) && r.2 == rows
    ensures w.id != NilId && !fault && HasId(rows, w.id) ==>
      r.1.None? && |r.2| == |rows| &&
      forall i :: 0 <= i < |rows| ==> r.2[i] == if rows[i].id == w.id then w else rows[i]
    ensures w.id != NilId && !fault && !HasId(rows, w.id) ==> r.1.None? && r.2 == rows + [w]
  {
    if w.id == NilId then Insert(rows, w, generated, fault)
    else if fault then (w, Some(StorageFailure(UpdateWallet)), rows)
    else if HasId(rows, w.id) then (w, None, Replace(rows, w))
    else (w, None, rows + [w])
  }

  /** Appending a row with a new, non-nil ID keeps the primary key. */
  lemma AppendKeepsPrimaryKey(rows: seq<Wallet>, w: Wallet)
    requires PrimaryKeyed(rows) && w.id != NilId && !HasId(rows, w.id)
    ensures PrimaryKeyed(rows + [w])
  {
    var r := rows + [w];
    forall i, j | 0 <= i < j < |r| ensures IdOf(r[i]) != IdOf(r[j]) {
      if j < |rows| {
        assert IdOf(r[i]) == IdOf(rows[i]) && IdOf(r[j]) == IdOf(rows[j]);
      } else {
        assert r[i] == rows[i] && r[j] == w;
      }
    }
  }

  /** Rewriting rows without touching their IDs keeps the primary key. */
  lemma SameIdsKeepPrimaryKey(rows: seq<Wallet>, r: seq<Wallet>)
    requires PrimaryKeyed(rows) && |r| == |rows|
    requires forall i :: 0 <= i < |rows| ==> r[i].id == rows[i].id
    ensures PrimaryKeyed(r)
  {
    forall i, j | 0 <= i < j < |r| ensures IdOf(r[i]) != IdOf(r[j]) {
      assert IdOf(r[i]) == IdOf(rows[i]) && IdOf(r[j]) == IdOf(rows[j]);
    }
  }

  /** Rewriting rows without touching their keys keeps one wallet per key. */
  lemma SameKeysKeepOneWalletPerKey(rows: seq<Wallet>, r: seq<Wallet>)
    requires OneWalletPerKey(rows) && |r| == |rows|
    requires forall i :: 0 <= i < |rows| ==> KeyOf(r[i]) == KeyOf(rows[i])
    ensures OneWalletPerKey(r)
  {
    forall i, j | 0 <= i < j < |r| ensures KeyOf(r[i]) != KeyOf(r[j]) {
      assert KeyOf(r[i]) == KeyOf(rows[i]) && KeyOf(r[j]) == KeyOf(rows[j]);
    }
  }

  /** Setting a balance keeps every ID and every key. */
  lemma SetBalanceKeepsKeys(rows: seq<Wallet>, walletId: Uuid, v: real)
    ensures PrimaryKeyed(rows) ==> PrimaryKeyed(SetBalance(rows, walletId, v))
    ensures OneWalletPerKey(rows) ==> OneWalletPerKey(SetBalance(rows, walletId, v))
  {
    var r := SetBalance(rows, walletId, v);
    if PrimaryKeyed(rows) {
      SameIdsKeepPrimaryKey(rows, r);
    }
    if OneWalletPerKey(rows) {
      SameKeysKeepOneWalletPerKey(rows, r);
    }
  }

  /** An insert keeps the primary key: the hook gives the row an ID and an
      ID already taken is refused. */
  lemma InsertKeepsPrimaryKey(rows: seq<Wallet>, w: Wallet, generated: Uuid, fault: bool)
    requires generated != NilId && PrimaryKeyed(rows)
    ensures PrimaryKeyed(Insert(rows, w, generated, fault).2)
  {
    var r := Insert(rows, w, generated, fault);
    if r.1.None? {
      AppendKeepsPrimaryKey(rows, r.0);
    }
  }

  /** A save keeps the primary key: an overwrite keeps every ID, an insert
      adds one not yet present. */
  lemma SaveKeepsPrimaryKey(rows: seq<Wallet>, w: Wallet, generated: Uuid, fault: bool)
    requires generated != NilId && PrimaryKeyed(rows)
    ensures PrimaryKeyed(Save(rows, w, generated, fault).2)
  {
    if w.id == NilId {
      InsertKeepsPrimaryKey(rows, w, generated, fault);
    } else if !fault && HasId(rows, w.id) {
      SameIdsKeepPrimaryKey(rows, Save(rows, w, generated, fault).2);
    } else if !fault {
      AppendKeepsPrimaryKey(rows, w);
    }
  }

  class WalletRepository {
    var rows: seq<Wallet>

    ghost predicate Valid()
      reads this
    {
      PrimaryKeyed(rows)
    }

    constructor (initial: seq<Wallet>)
      requires PrimaryKeyed(initial)
      ensures Valid() && rows == initial
    {
      rows := initial;
    }

    method Create(w: Wallet, generated: Uuid, fault: bool) returns (created: Wallet, err: Option<Error>)
      requires Valid() && generated != NilId
      modifies this
      ensures Valid()
      ensures (created, err, rows) == Insert(old(rows), w, generated, fault)
    {
      InsertKeepsPrimaryKey(rows, w, generated, fault);
      created := BeforeCreate(w, generated);
      if fault || HasId(rows, created.id) {
        err := Some(StorageFailure(InsertWallet));
      } else {
        rows := rows + [created];
        err := None;
      }
    }

    method Update(w: Wallet, generated: Uuid, fault: bool) returns (saved: Wallet, err: Option<Error>)
      requires Valid() && generated != NilId
      modifies this
      ensures Valid()
      ensures (saved, err, rows) == Save(old(rows), w, generated, fault)
    {
      SaveKeepsPrimaryKey(rows, w, generated, fault);
      if w.id == NilId {
        saved, err := Create(w, generated, fault);
      } else if fault {
        saved, err := w, Some(StorageFailure(UpdateWallet));
      } else {
        saved, err := w, None;
        rows := if HasId(rows, w.id) then Replace(rows, w) else rows + [w];
      }
    }

    method UpdateBalance(walletId: Uuid, newBalance: real, fault: bool) returns (err: Option<Error>)
      requires Valid()
      modifies this
      ensures Valid()
      ensures err.Some? <==> fault
      ensures err.Some? ==> err.value == StorageFailure(UpdateWallet) && rows == old(rows)
      ensures err.None? ==> rows == SetBalance(old(rows), walletId, newBalance)
    {
      SetBalanceKeepsKeys(rows, walletId, newBalance);
      if fault {
        err := Some(StorageFailure(UpdateWallet));
      } else {
        rows := SetBalance(rows, walletId, newBalance);
        err := None;
      }
    }
  }
}
