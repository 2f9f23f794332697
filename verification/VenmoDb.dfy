/**
 * The sqlite row store of the payment service: a `users` table and a `txns`
 * table, each keyed by an AUTOINCREMENT id, and the row operations of its
 * DatabaseDriver. Tables are maps from id to row; the AUTOINCREMENT sequences
 * are the two `next` counters.
 */
module VenmoDb {
  import opened Wrappers
  import opened Tables

  /** A users row without its id. */
  datatype User = User(name: string, username: string, balance: int)

  /** A txns row without its id. `accepted` is None while the transfer is pending. */
  datatype Txn = Txn(timestamp: nat, senderId: int, receiverId: int, amount: int,
                     message: Option<string>, accepted: Option<bool>)

  /** The dictionary get_user_by_id builds from a users row. */
  datatype UserRow = UserRow(id: int, name: string, username: string, balance: int)

  /** The dictionary get_all_users builds from a users row: it has no balance. */
  datatype UserSummary = UserSummary(id: int, name: string, username: string)

  /** The dictionary every read of the txns table builds from a row. */
  datatype TxnRow = TxnRow(id: int, timestamp: nat, senderId: int, receiverId: int,
                           amount: int, message: Option<string>, accepted: Option<bool>)

  datatype Store = Store(users: map<int, User>, txns: map<int, Txn>,
                         nextUserId: int, nextTxnId: int)

  /** The sqlite error raised by an INSERT that leaves a NOT NULL column empty. */
  datatype IntegrityError = NotNullFailed(column: string)

  /** The two columns of a transfer a user can be matched on. */
  datatype Party = Sender | Receiver

  /** Every id in use was handed out by its sequence, and sequences start at 1. */
  ghost predicate Valid(s: Store) {
    && 1 <= s.nextUserId
    && 1 <= s.nextTxnId
    && (forall id :: id in s.users ==> 1 <= id < s.nextUserId)
    && (forall id :: id in s.txns ==> 1 <= id < s.nextTxnId)
  }

  /** `id` is present and names a users row. */
  predicate Found(s: Store, id: Option<int>) {
    id.Some? && id.value in s.users
  }

  function UserRowOf(id: int, u: User): UserRow {
    UserRow(id, u.name, u.username, u.balance)
  }

  function SummaryOf(id: int, u: User): UserSummary {
    UserSummary(id, u.name, u.username)
  }

  function TxnRowOf(id: int, t: Txn): TxnRow {
    TxnRow(id, t.timestamp, t.senderId, t.receiverId, t.amount, t.message, t.accepted)
  }

  function PartyOf(t: Txn, p: Party): int {
    match p
    case Sender => t.senderId
    case Receiver => t.receiverId
  }

  /** The users ids in scan order. */
  function UserIds(s: Store): seq<int> {
    IdsBelow(s.users, s.nextUserId)
  }

  /** The txns ids in scan order. */
  function TxnIds(s: Store): seq<int> {
    IdsBelow(s.txns, s.nextTxnId)
  }

  /** The constructor: both tables dropped and created again, so both are empty. */
  function Init(): (s: Store)
    ensures Valid(s)
    ensures GetAllUsers(s) == [] && GetAllTransactions(s) == []
    ensures forall id :: GetUserById(s, id).None?
    ensures forall uid :: GetUserTransactions(s, uid) == []
  {
    Store(map[], map[], 1, 1)
  }

  /** get_all_users: every users row, in scan order, without its balance. */
  function GetAllUsers(s: Store): (r: seq<UserSummary>)
    ensures forall i :: 0 <= i < |r| ==> r[i].id in s.users && r[i] == SummaryOf(r[i].id, s.users[r[i].id])
    ensures forall i, j :: 0 <= i < j < |r| ==> r[i].id < r[j].id
    ensures Valid(s) ==> forall id :: id in s.users ==> SummaryOf(id, s.users[id]) in r
  {
    var ids := UserIds(s);
    var r := seq(|ids|, i requires 0 <= i < |ids| => SummaryOf(ids[i], s.users[ids[i]]));
    assert forall i :: 0 <= i < |ids| ==> r[i].id == ids[i];
    r
  }

  /** get_all_trans: every txns row, in scan order. */
  function GetAllTransactions(s: Store): (r: seq<TxnRow>)
    ensures forall i :: 0 <= i < |r| ==> r[i].id in s.txns && r[i] == TxnRowOf(r[i].id, s.txns[r[i].id])
    ensures forall i, j :: 0 <= i < j < |r| ==> r[i].id < r[j].id
    ensures Valid(s) ==> forall id :: id in s.txns ==> TxnRowOf(id, s.txns[id]) in r
  {
    var ids := TxnIds(s);
    var r := seq(|ids|, i requires 0 <= i < |ids| => TxnRowOf(ids[i], s.txns[ids[i]]));
    assert forall i :: 0 <= i < |ids| ==> r[i].id == ids[i];
    r
  }

  /** get_user_by_id: the row with that id, or None (an absent id matches no row). */
  function GetUserById(s: Store, id: Option<int>): (r: Option<UserRow>)
    ensures r.None? <==> !Found(s, id)
    ensures r.Some? ==> r.value == UserRowOf(id.value, s.users[id.value])
  {
    if id.Some? && id.value in s.users then Some(UserRowOf(id.value, s.users[id.value])) else None
  }

  /** insert_user_table: a new row under the next id; name and username are NOT NULL. */
  function InsertUser(s: Store, name: Option<string>, username: Option<string>, balance: int)
    : (r: Result<(Store, int), IntegrityError>)
    ensures r.Err? <==> name.None? || username.None?
    ensures name.None? ==> r == Err(NotNullFailed("users.name"))
    ensures r.Ok? ==>
      var (s', id) := r.value;
      && GetUserById(s', Some(id)) == Some(UserRow(id, name.value, username.value, balance))
      && (forall k :: k != id ==> GetUserById(s', Some(k)) == GetUserById(s, Some(k)))
      && s'.txns == s.txns
      && (Valid(s) ==> id !in s.users && Valid(s'))
  {
    if name.None? then Err(NotNullFailed("users.name"))
    else if username.None? then Err(NotNullFailed("users.username"))
    else
      var id := s.nextUserId;
      Ok((s.(users := s.users[id := User(name.value, username.value, balance)], nextUserId := id + 1), id))
  }

  /** delete_user_by_id: removes that users row only; transfers naming it stay. */
  function DeleteUserById(s: Store, id: int): (s': Store)
    ensures GetUserById(s', Some(id)).None?
    ensures forall k :: k != id ==> GetUserById(s', Some(k)) == GetUserById(s, Some(k))
    ensures s'.txns == s.txns && s'.nextUserId == s.nextUserId && s'.nextTxnId == s.nextTxnId
    ensures Valid(s) ==> Valid(s')
  {
    s.(users := s.users - {id})
  }

  /** update_balance: sets the balance to `amount` (a value, not a delta); an unknown id matches no row. */
  function UpdateBalance(s: Store, id: int, amount: int): (s': Store)
    ensures s'.users.Keys == s.users.Keys
    ensures id in s.users ==> s'.users[id] == s.users[id].(balance := amount)
    ensures id !in s.users ==> s' == s
    ensures forall k :: k in s.users && k != id ==> s'.users[k] == s.users[k]
    ensures s'.txns == s.txns && s'.nextUserId == s.nextUserId && s'.nextTxnId == s.nextTxnId
    ensures Valid(s) ==> Valid(s')
  {
    if id in s.users then s.(users := s.users[id := s.users[id].(balance := amount)]) else s
  }

  /** insert_transaction: a new row under the next id, returning that id. */
  function InsertTransaction(s: Store, timestamp: nat, senderId: int, receiverId: int, amount: int,
                             message: Option<string>, accepted: Option<bool>): (r: (Store, int))
    ensures GetTransactionById(r.0, r.1) == Some(TxnRow(r.1, timestamp, senderId, receiverId, amount, message, accepted))
    ensures forall k :: k != r.1 ==> GetTransactionById(r.0, k) == GetTransactionById(s, k)
    ensures r.0.txns.Keys == s.txns.Keys + {r.1}
    ensures r.0.users == s.users && r.0.nextUserId == s.nextUserId
    ensures Valid(s) ==> r.1 !in s.txns && Valid(r.0)
  {
    var id := s.nextTxnId;
    (s.(txns := s.txns[id := Txn(timestamp, senderId, receiverId, amount, message, accepted)], nextTxnId := id + 1), id)
  }

  /** get_transaction_by_id: the row with that id, or None. */
  function GetTransactionById(s: Store, id: int): (r: Option<TxnRow>)
    ensures r.None? <==> id !in s.txns
    ensures r.Some? ==> r.value == TxnRowOf(id, s.txns[id])
  {
    if id in s.txns then Some(TxnRowOf(id, s.txns[id])) else None
  }

  /** update_transaction: writes `accepted` and the timestamp of that row and nothing else. */
  function UpdateTransaction(s: Store, id: int, now: nat, accepted: Option<bool>): (s': Store)
    ensures s'.txns.Keys == s.txns.Keys
    ensures id in s.txns ==> s'.txns[id] == s.txns[id].(accepted := accepted, timestamp := now)
    ensures id !in s.txns ==> s' == s
    ensures forall k :: k in s.txns && k != id ==> s'.txns[k] == s.txns[k]
    ensures s'.users == s.users && s'.nextUserId == s.nextUserId && s'.nextTxnId == s.nextTxnId
    ensures Valid(s) ==> Valid(s')
  {
    if id in s.txns then s.(txns := s.txns[id := s.txns[id].(accepted := accepted, timestamp := now)]) else s
  }

  /** One `SELECT * FROM txns WHERE <p> = uid` over the ids `ids`, in their order. */
  function SelectByParty(txns: map<int, Txn>, ids: seq<int>, p: Party, uid: int): (rows: seq<TxnRow>)
    ensures forall i :: 0 <= i < |rows| ==>
      && rows[i].id in ids && rows[i].id in txns
      && rows[i] == TxnRowOf(rows[i].id, txns[rows[i].id])
      && PartyOf(txns[rows[i].id], p) == uid
    ensures forall k :: k in ids && k in txns && PartyOf(txns[k], p) == uid ==> TxnRowOf(k, txns[k]) in rows
    ensures (forall i, j :: 0 <= i < j < |ids| ==> ids[i] < ids[j]) ==>
      forall i, j :: 0 <= i < j < |rows| ==> rows[i].id < rows[j].id
  {
    if ids == [] then []
    else
      var k := ids[0];
      var here := if k in txns && PartyOf(txns[k], p) == uid then [TxnRowOf(k, txns[k])] else [];
      here + SelectByParty(txns, ids[1..], p, uid)
  }

  /** get_user_transactions: the rows the user sent, then the rows the user received. */
  function GetUserTransactions(s: Store, uid: int): (r: seq<TxnRow>)
    ensures forall i :: 0 <= i < |r| ==>
      && r[i].id in s.txns
      && r[i] == TxnRowOf(r[i].id, s.txns[r[i].id])
      && (r[i].senderId == uid || r[i].receiverId == uid)
    ensures Valid(s) ==> forall k :: k in s.txns && (s.txns[k].senderId == uid || s.txns[k].receiverId == uid) ==>
      TxnRowOf(k, s.txns[k]) in r
  {
    SelectByParty(s.txns, TxnIds(s), Sender, uid) + SelectByParty(s.txns, TxnIds(s), Receiver, uid)
  }
}
