/**
 * The endpoints of the payment service as steps over the row store. Request
 * bodies arrive already parsed: a field the body leaves out is None. The clock
 * is the parameter `now`.
 */
module VenmoApp {
  import opened Wrappers
  import opened Http
  import opened VenmoDb

  /** A user dictionary with its "transactions" list attached. */
  datatype UserWithTxns = UserWithTxns(user: UserRow, transactions: seq<TxnRow>)

  /** The message of the TypeError raised by indexing a user lookup that found nothing. */
  const NoneNotSubscriptable := "'NoneType' object is not subscriptable"

  /** The balance create_user stores: a falsy balance (absent or 0) becomes 0. */
  function StoredBalance(balance: Option<int>): (b: int)
    ensures b == balance.GetOr(0)
  {
    if balance.Some? && balance.value != 0 then balance.value else 0
  }

  /**
   * POST /api/users/. A NOT NULL violation on name or username escapes as an
   * IntegrityError, answered with 500; the readback failure answered with 400
   * cannot happen.
   */
  function CreateUser(s: Store, name: Option<string>, username: Option<string>, balance: Option<int>)
    : (r: Reply<Store, UserWithTxns>)
    requires Valid(s)
    ensures Valid(r.store)
    ensures r.result.Err? <==> name.None? || username.None?
    ensures r.result.Err? ==> r.store == s && r.result.error.code == InternalServerError
    ensures r.result.Ok? ==>
      var u := r.result.value.user;
      && u.id !in s.users
      && u == UserRow(u.id, name.value, username.value, balance.GetOr(0))
      && r.result.value.transactions == []
      && GetUserById(r.store, Some(u.id)) == Some(u)
      && (forall k :: k != u.id ==> GetUserById(r.store, Some(k)) == GetUserById(s, Some(k)))
      && r.store.txns == s.txns
  {
    match InsertUser(s, name, username, StoredBalance(balance))
    case Err(e) => Reply(s, Err(Failure(InternalServerError, "NOT NULL constraint failed: " + e.column)))
    case Ok((s1, id)) =>
      var user := GetUserById(s1, Some(id));
      if user.None? then Reply(s1, Err(Failure(BadRequest, "Could not create user.")))
      else Reply(s1, Ok(UserWithTxns(user.value, [])))
  }

  /** GET /api/users/{id}/: the user with every transfer it sent or received. */
  function GetUser(s: Store, id: int): (r: Reply<Store, UserWithTxns>)
    ensures r.store == s
    ensures id !in s.users <==> r.result == Err(Failure(NotFound, "user not found!"))
    ensures r.result.Ok? ==>
      r.result.value == UserWithTxns(UserRowOf(id, s.users[id]), GetUserTransactions(s, id))
  {
    var user := GetUserById(s, Some(id));
    if user.None? then Reply(s, Err(Failure(NotFound, "user not found!")))
    else Reply(s, Ok(UserWithTxns(user.value, GetUserTransactions(s, id))))
  }

  /**
   * DELETE /api/users/{id}/: removes the user row and answers with the row read
   * before the delete and the transfers read after it, which the delete left in place.
   */
  function DeleteUser(s: Store, id: int): (r: Reply<Store, UserWithTxns>)
    requires Valid(s)
    ensures Valid(r.store)
    ensures id !in s.users <==> r == Reply(s, Err(Failure(NotFound, "user not found!")))
    ensures id in s.users ==>
      && r.result == Ok(UserWithTxns(UserRowOf(id, s.users[id]), GetUserTransactions(s, id)))
      && r.store.users == s.users - {id}
      && r.store.txns == s.txns
      && (forall v :: GetUserTransactions(r.store, v) == GetUserTransactions(s, v))
  {
    var user := GetUserById(s, Some(id));
    if user.None? then Reply(s, Err(Failure(NotFound, "user not found!")))
    else
      var s1 := DeleteUserById(s, id);
      Reply(s1, Ok(UserWithTxns(user.value, GetUserTransactions(s1, id))))
  }

  /**
   * The two balance writes of a settlement: each an absolute value computed
   * from the balances read before either write.
   */
  function Settle(s: Store, snd: int, rcv: int, a: int): (s': Store)
    requires snd in s.users && rcv in s.users
    ensures s'.users.Keys == s.users.Keys
    ensures s'.txns == s.txns && s'.nextUserId == s.nextUserId && s'.nextTxnId == s.nextTxnId
    ensures s'.users[rcv] == s.users[rcv].(balance := s.users[rcv].balance + a)
    ensures snd != rcv ==> s'.users[snd] == s.users[snd].(balance := s.users[snd].balance - a)
    ensures forall k :: k in s.users && k != snd && k != rcv ==> s'.users[k] == s.users[k]
  {
    UpdateBalance(UpdateBalance(s, snd, s.users[snd].balance - a), rcv, s.users[rcv].balance + a)
  }

  /**
   * POST /api/transactions/. With `accepted` true the two balances are written
   * first, each as an absolute value computed from the rows read before either
   * write; then the transfer is recorded with `accepted` exactly as supplied.
   */
  function SendMoney(s: Store, senderId: Option<int>, receiverId: Option<int>, amount: Option<int>,
                     message: Option<string>, accepted: Option<bool>, now: nat): (r: Reply<Store, TxnRow>)
    requires Valid(s)
    ensures Valid(r.store)
    ensures !Found(s, senderId) ==> r == Reply(s, Err(Failure(BadRequest, "sender not found!")))
    ensures Found(s, senderId) && !Found(s, receiverId) ==>
      r == Reply(s, Err(Failure(BadRequest, "receiver not found!")))
    ensures Found(s, senderId) && Found(s, receiverId) && amount.None? ==>
      r == Reply(s, Err(Failure(BadRequest, "empty amount")))
    ensures Found(s, senderId) && Found(s, receiverId) && amount.Some? && accepted == Some(true)
            && s.users[senderId.value].balance < amount.value ==>
      r == Reply(s, Err(Failure(Forbidden, "insufficient balance!")))
    ensures r.result.Err? ==> r.store == s
    ensures r.result.Ok? <==>
      && Found(s, senderId) && Found(s, receiverId) && amount.Some?
      && !(accepted == Some(true) && s.users[senderId.value].balance < amount.value)
    ensures r.result.Ok? ==>
      var t := r.result.value;
      && t.id !in s.txns
      && t == TxnRow(t.id, now, senderId.value, receiverId.value, amount.value, message, accepted)
      && GetTransactionById(r.store, t.id) == Some(t)
      && r.store.txns.Keys == s.txns.Keys + {t.id}
      && (forall k :: k in s.txns ==> r.store.txns[k] == s.txns[k])
    ensures r.store.nextUserId == s.nextUserId
    ensures r.result.Ok? && accepted != Some(true) ==> r.store.users == s.users
    ensures r.result.Ok? && accepted == Some(true) ==>
      r.store.users == Settle(s, senderId.value, receiverId.value, amount.value).users
    ensures r.result.Ok? && accepted == Some(true) ==>
      var (snd, rcv, a) := (senderId.value, receiverId.value, amount.value);
      && r.store.users.Keys == s.users.Keys
      && r.store.users[rcv] == s.users[rcv].(balance := s.users[rcv].balance + a)
      && (snd != rcv ==> r.store.users[snd] == s.users[snd].(balance := s.users[snd].balance - a))
      && (forall k :: k in s.users && k != snd && k != rcv ==> r.store.users[k] == s.users[k])
  {
    var sender := GetUserById(s, senderId);
    if sender.None? then Reply(s, Err(Failure(BadRequest, "sender not found!")))
    else
      var receiver := GetUserById(s, receiverId);
      if receiver.None? then Reply(s, Err(Failure(BadRequest, "receiver not found!")))
      else if amount.None? then Reply(s, Err(Failure(BadRequest, "empty amount")))
      else if accepted == Some(true) && sender.value.balance < amount.value then
        Reply(s, Err(Failure(Forbidden, "insufficient balance!")))
      else
        var s1 := if accepted == Some(true) then Settle(s, senderId.value, receiverId.value, amount.value) else s;
        var (s2, id) := InsertTransaction(s1, now, senderId.value, receiverId.value, amount.value, message, accepted);
        var t := GetTransactionById(s2, id);
        if t.None? then Reply(s2, Err(Failure(BadRequest, "Could not create transaction.")))
        else Reply(s2, Ok(t.value))
  }

  /** The transfer `id` is recorded and still pending. */
  predicate Pending(s: Store, id: int) {
    id in s.txns && s.txns[id].accepted.None?
  }

  /**
   * POST /api/transactions/{id}/. Only a pending transfer may be resolved. On
   * acceptance the row is marked first and the balances written after, again
   * from rows read before any write; a sender or receiver row that has been
   * deleted makes the handler raise, the receiver's case after two writes.
   */
  function UpdateTransaction(s: Store, id: int, accepted: Option<bool>, now: nat): (r: Reply<Store, TxnRow>)
    requires Valid(s)
    ensures Valid(r.store)
    ensures r.store.nextUserId == s.nextUserId
    ensures id !in s.txns ==> r == Reply(s, Err(Failure(BadRequest, "Could not find transaction.")))
    ensures id in s.txns && s.txns[id].accepted.Some? ==>
      r == Reply(s, Err(Failure(Forbidden, "cannot change transaction's accepted field")))
    ensures Pending(s, id) && accepted == Some(true) && s.txns[id].senderId !in s.users ==>
      r == Reply(s, Err(Failure(InternalServerError, NoneNotSubscriptable)))
    ensures Pending(s, id) && accepted == Some(true) && s.txns[id].senderId in s.users
            && s.users[s.txns[id].senderId].balance < s.txns[id].amount ==>
      r == Reply(s, Err(Failure(Forbidden, "insufficient balance!")))
    ensures Pending(s, id) && accepted == Some(true) && s.txns[id].senderId in s.users
            && s.users[s.txns[id].senderId].balance >= s.txns[id].amount ==>
      var t := s.txns[id];
      var (snd, rcv, a) := (t.senderId, t.receiverId, t.amount);
      && r.store.txns == s.txns[id := t.(accepted := Some(true), timestamp := now)]
      && r.store.users.Keys == s.users.Keys
      && (forall k :: k in s.users && k != snd && k != rcv ==> r.store.users[k] == s.users[k])
      && (rcv in s.users ==>
            && r.result == Ok(TxnRowOf(id, r.store.txns[id]))
            && r.store.users == Settle(s, snd, rcv, a).users
            && r.store.users[rcv] == s.users[rcv].(balance := s.users[rcv].balance + a)
            && (snd != rcv ==> r.store.users[snd] == s.users[snd].(balance := s.users[snd].balance - a)))
      && (rcv !in s.users ==>
            && r.result == Err(Failure(InternalServerError, NoneNotSubscriptable))
            && r.store.users[snd] == s.users[snd].(balance := s.users[snd].balance - a)
            && r.store.users == UpdateBalance(s, snd, s.users[snd].balance - a).users)
    ensures Pending(s, id) && accepted != Some(true) ==>
      && r.store.users == s.users
      && r.store.txns == s.txns[id := s.txns[id].(accepted := accepted, timestamp := now)]
      && r.result == Ok(TxnRowOf(id, r.store.txns[id]))
  {
    var t := GetTransactionById(s, id);
    if t.None? then Reply(s, Err(Failure(BadRequest, "Could not find transaction.")))
    else if t.value.accepted.Some? then Reply(s, Err(Failure(Forbidden, "cannot change transaction's accepted field")))
    else if accepted == Some(true) then
      var tx := t.value;
      var sender := GetUserById(s, Some(tx.senderId));
      var receiver := GetUserById(s, Some(tx.receiverId));
      if sender.None? then Reply(s, Err(Failure(InternalServerError, NoneNotSubscriptable)))
      else if sender.value.balance < tx.amount then Reply(s, Err(Failure(Forbidden, "insufficient balance!")))
      else
        var s1 := VenmoDb.UpdateTransaction(s, id, now, accepted);
        var s2 := UpdateBalance(s1, tx.senderId, sender.value.balance - tx.amount);
        if receiver.None? then Reply(s2, Err(Failure(InternalServerError, NoneNotSubscriptable)))
        else
          var s3 := UpdateBalance(s2, tx.receiverId, receiver.value.balance + tx.amount);
          Reply(s3, Ok(GetTransactionById(s3, id).value))
    else
      var s1 := VenmoDb.UpdateTransaction(s, id, now, accepted);
      Reply(s1, Ok(GetTransactionById(s1, id).value))
  }
}
