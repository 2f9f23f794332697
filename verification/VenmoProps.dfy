/**
 * Properties of the payment service that relate several steps: how much money
 * the users hold in total, the transfer life cycle over any run of requests,
 * the shape of a user's transfer listing, and an example session.
 */
module VenmoProps {
  import opened Wrappers
  import opened Http
  import opened Tables
  import opened VenmoDb
  import opened VenmoApp

  /** Sum of the balances of the users `ids` names. */
  function Total(users: map<int, User>, ids: seq<int>): int {
    if ids == [] then 0
    else (if ids[0] in users then users[ids[0]].balance else 0) + Total(users, ids[1..])
  }

  /** All the money the users table holds. */
  function TotalBalance(s: Store): int {
    Total(s.users, UserIds(s))
  }

  /** The balance user `id` holds, 0 for a missing row. */
  function BalanceOf(s: Store, id: int): int {
    if id in s.users then s.users[id].balance else 0
  }

  /** Setting one balance moves the sum by the difference, once, if that id is listed. */
  lemma {:induction false} TotalSetBalance(users: map<int, User>, ids: seq<int>, k: int, v: int)
    requires k in users
    requires forall i, j :: 0 <= i < j < |ids| ==> ids[i] < ids[j]
    ensures Total(users[k := users[k].(balance := v)], ids)
            == Total(users, ids) + (if k in ids then v - users[k].balance else 0)
  {
    if ids != [] {
      TotalSetBalance(users, ids[1..], k, v);
      if ids[0] == k {
        assert k !in ids[1..] by {
          forall i | 0 <= i < |ids[1..]| ensures ids[1..][i] != k {
            assert ids[1..][i] == ids[i + 1];
          }
        }
      }
      assert ids == [ids[0]] + ids[1..];
    }
  }

  /** update_balance moves the total by the difference between the new and the old balance. */
  lemma UpdateBalanceTotal(s: Store, id: int, amount: int)
    requires Valid(s)
    ensures TotalBalance(UpdateBalance(s, id, amount))
            == TotalBalance(s) + (if id in s.users then amount - s.users[id].balance else 0)
  {
    var s' := UpdateBalance(s, id, amount);
    if id in s.users {
      assert s'.users == s.users[id := s.users[id].(balance := amount)];
      IdsBelowSameKeys(s.users, s'.users, s.nextUserId);
      assert UserIds(s') == UserIds(s);
      assert id in UserIds(s);
      TotalSetBalance(s.users, UserIds(s), id, amount);
    }
  }

  /**
   * Settling between two different users conserves the total; settling from a
   * user to itself adds the amount, because the credit, computed from the
   * balance read before the debit, overwrites it.
   */
  lemma SettleTotal(s: Store, snd: int, rcv: int, a: int)
    requires Valid(s)
    requires snd in s.users && rcv in s.users
    ensures snd != rcv ==> TotalBalance(Settle(s, snd, rcv, a)) == TotalBalance(s)
    ensures snd == rcv ==> TotalBalance(Settle(s, snd, rcv, a)) == TotalBalance(s) + a
  {
    var ids := UserIds(s);
    var s2 := Settle(s, snd, rcv, a);
    IdsBelowSameKeys(s.users, s2.users, s.nextUserId);
    assert UserIds(s2) == ids;
    SettleSum(s, snd, rcv, a, ids);
  }

  /** SettleTotal over an explicit list of distinct ids holding both parties. */
  lemma SettleSum(s: Store, snd: int, rcv: int, a: int, ids: seq<int>)
    requires snd in s.users && rcv in s.users
    requires snd in ids && rcv in ids
    requires forall i, j :: 0 <= i < j < |ids| ==> ids[i] < ids[j]
    ensures snd != rcv ==> Total(Settle(s, snd, rcv, a).users, ids) == Total(s.users, ids)
    ensures snd == rcv ==> Total(Settle(s, snd, rcv, a).users, ids) == Total(s.users, ids) + a
  {
    var s1 := UpdateBalance(s, snd, s.users[snd].balance - a);
    TotalSetBalance(s.users, ids, snd, s.users[snd].balance - a);
    TotalSetBalance(s1.users, ids, rcv, s.users[rcv].balance + a);
  }

  /** A transfer between two different users leaves the total where it was, whatever its outcome. */
  lemma SendMoneyConservesTotal(s: Store, senderId: Option<int>, receiverId: Option<int>, amount: Option<int>,
                                message: Option<string>, accepted: Option<bool>, now: nat)
    requires Valid(s)
    requires senderId != receiverId
    ensures TotalBalance(SendMoney(s, senderId, receiverId, amount, message, accepted, now).store) == TotalBalance(s)
  {
    var r := SendMoney(s, senderId, receiverId, amount, message, accepted, now);
    if r.result.Ok? && accepted == Some(true) {
      SettleTotal(s, senderId.value, receiverId.value, amount.value);
    }
  }

  /** A settled transfer from a user to itself adds the amount to the total. */
  lemma SendMoneySelfTransferAddsAmount(s: Store, uid: int, a: int, message: Option<string>, now: nat)
    requires Valid(s)
    requires uid in s.users && a <= s.users[uid].balance
    ensures var r := SendMoney(s, Some(uid), Some(uid), Some(a), message, Some(true), now);
      && r.result.Ok?
      && r.store.users[uid].balance == s.users[uid].balance + a
      && TotalBalance(r.store) == TotalBalance(s) + a
  {
    SettleTotal(s, uid, uid, a);
  }

  /** A one-user store in which that user sends 5 to itself and ends up 5 richer. */
  lemma SelfTransferExample()
    ensures var s := Store(map[1 := User("ann", "a", 10)], map[], 2, 1);
      var r := SendMoney(s, Some(1), Some(1), Some(5), None, Some(true), 0);
      && TotalBalance(s) == 10
      && r.result.Ok?
      && r.store.users[1].balance == 15
      && TotalBalance(r.store) == 15
  {
    var s := Store(map[1 := User("ann", "a", 10)], map[], 2, 1);
    SendMoneySelfTransferAddsAmount(s, 1, 5, None, 0);
    assert UserIds(s) == [1];
  }

  /** Accepting a pending transfer between two different users conserves the total when it succeeds. */
  lemma UpdateTransactionConservesTotal(s: Store, id: int, accepted: Option<bool>, now: nat)
    requires Valid(s)
    requires id in s.txns ==> s.txns[id].senderId != s.txns[id].receiverId
    ensures var r := VenmoApp.UpdateTransaction(s, id, accepted, now);
      r.result.Ok? ==> TotalBalance(r.store) == TotalBalance(s)
  {
    var r := VenmoApp.UpdateTransaction(s, id, accepted, now);
    if r.result.Ok? && accepted == Some(true) {
      SettleTotal(s, s.txns[id].senderId, s.txns[id].receiverId, s.txns[id].amount);
    }
  }

  /**
   * Accepting a transfer whose receiver has been deleted answers 500, yet the
   * transfer is already marked accepted and the sender already debited: the
   * amount leaves the users table.
   */
  lemma UpdateTransactionDeletedReceiverLosesAmount(s: Store, id: int, now: nat)
    requires Valid(s)
    requires Pending(s, id)
    requires s.txns[id].senderId in s.users && s.txns[id].receiverId !in s.users
    requires s.txns[id].amount <= s.users[s.txns[id].senderId].balance
    ensures var r := VenmoApp.UpdateTransaction(s, id, Some(true), now);
      && r.result == Err(Failure(InternalServerError, NoneNotSubscriptable))
      && r.store.txns[id].accepted == Some(true)
      && TotalBalance(r.store) == TotalBalance(s) - s.txns[id].amount
  {
    var t := s.txns[id];
    var r := VenmoApp.UpdateTransaction(s, id, Some(true), now);
    var debited := UpdateBalance(s, t.senderId, s.users[t.senderId].balance - t.amount);
    UpdateBalanceTotal(s, t.senderId, s.users[t.senderId].balance - t.amount);
    SameUsersSameTotal(r.store, debited);
  }

  /** The total depends on the users table and its id counter only. */
  lemma SameUsersSameTotal(a: Store, b: Store)
    requires a.users == b.users && a.nextUserId == b.nextUserId
    ensures TotalBalance(a) == TotalBalance(b)
  {
    assert UserIds(a) == UserIds(b);
  }

  /** One request to the payment service, its body already parsed. */
  datatype Request =
    | PostUser(name: Option<string>, username: Option<string>, balance: Option<int>)
    | GetUserReq(userId: int)
    | DeleteUserReq(userId: int)
    | PostTransaction(senderId: Option<int>, receiverId: Option<int>, amount: Option<int>,
                      message: Option<string>, accepted: Option<bool>, now: nat)
    | ResolveTransaction(txnId: int, accepted: Option<bool>, now: nat)

  /** The store after one request. */
  function Apply(s: Store, q: Request): (s': Store)
    requires Valid(s)
    ensures Valid(s')
  {
    match q
    case PostUser(n, u, b) => CreateUser(s, n, u, b).store
    case GetUserReq(id) => GetUser(s, id).store
    case DeleteUserReq(id) => DeleteUser(s, id).store
    case PostTransaction(snd, rcv, a, m, acc, now) => SendMoney(s, snd, rcv, a, m, acc, now).store
    case ResolveTransaction(id, acc, now) => VenmoApp.UpdateTransaction(s, id, acc, now).store
  }

  /** The store after a run of requests, from first to last. */
  function Run(s: Store, qs: seq<Request>): (s': Store)
    requires Valid(s)
    ensures Valid(s')
    decreases |qs|
  {
    if qs == [] then s else Run(Apply(s, qs[0]), qs[1..])
  }

  /** A transfer that is accepted or rejected no longer changes, and no transfer row disappears. */
  lemma ApplyKeepsSettled(s: Store, q: Request)
    requires Valid(s)
    ensures s.txns.Keys <= Apply(s, q).txns.Keys
    ensures forall k :: k in s.txns && s.txns[k].accepted.Some? ==> Apply(s, q).txns[k] == s.txns[k]
  {
  }

  /** Over any run of requests, settled transfers stay exactly as they were. */
  lemma {:induction false} RunKeepsSettled(s: Store, qs: seq<Request>)
    requires Valid(s)
    ensures s.txns.Keys <= Run(s, qs).txns.Keys
    ensures forall k :: k in s.txns && s.txns[k].accepted.Some? ==> Run(s, qs).txns[k] == s.txns[k]
    decreases |qs|
  {
    if qs != [] {
      ApplyKeepsSettled(s, qs[0]);
      RunKeepsSettled(Apply(s, qs[0]), qs[1..]);
    }
  }

  /** Whether a request is one that settles money: a transfer sent or resolved with accepted true. */
  predicate Accepts(q: Request) {
    (q.PostTransaction? || q.ResolveTransaction?) && q.accepted == Some(true)
  }

  /** A request that does not accept a transfer changes no balance of a user it leaves in place. */
  lemma OnlyAcceptanceMovesBalances(s: Store, q: Request)
    requires Valid(s)
    requires !Accepts(q)
    ensures forall k :: k in s.users && k in Apply(s, q).users ==> Apply(s, q).users[k] == s.users[k]
  {
  }

  /** A self-transfer is both sent and received by its user, so the listing holds it twice. */
  lemma SelfTransferListedTwice(s: Store, id: int)
    requires Valid(s)
    requires id in s.txns && s.txns[id].senderId == s.txns[id].receiverId
    ensures var r := GetUserTransactions(s, s.txns[id].senderId);
      exists i, j :: 0 <= i < j < |r| && r[i] == TxnRowOf(id, s.txns[id]) && r[j] == TxnRowOf(id, s.txns[id])
  {
    var uid := s.txns[id].senderId;
    var row := TxnRowOf(id, s.txns[id]);
    var sent := SelectByParty(s.txns, TxnIds(s), Sender, uid);
    var received := SelectByParty(s.txns, TxnIds(s), Receiver, uid);
    assert id in TxnIds(s);
    assert row in sent && row in received;
    InBothHalves(sent, received, row);
    assert GetUserTransactions(s, uid) == sent + received;
  }

  /** An element of both halves of a concatenation occurs in it at two positions. */
  lemma InBothHalves<T>(a: seq<T>, b: seq<T>, x: T)
    requires x in a && x in b
    ensures exists i, j :: 0 <= i < j < |a + b| && (a + b)[i] == x && (a + b)[j] == x
  {
    var i :| 0 <= i < |a| && a[i] == x;
    var j :| 0 <= j < |b| && b[j] == x;
    assert (a + b)[i] == x && (a + b)[|a| + j] == x;
  }

  /**
   * The listing is the transfers the user sent, in id order, followed by the
   * transfers the user received, in id order.
   */
  lemma UserTransactionsOrder(s: Store, uid: int) returns (k: int)
    requires Valid(s)
    ensures var r := GetUserTransactions(s, uid);
      && 0 <= k <= |r|
      && (forall i :: 0 <= i < k ==> r[i].senderId == uid)
      && (forall i :: k <= i < |r| ==> r[i].receiverId == uid)
      && (forall i, j :: 0 <= i < j < k ==> r[i].id < r[j].id)
      && (forall i, j :: k <= i < j < |r| ==> r[i].id < r[j].id)
  {
    var sent := SelectByParty(s.txns, TxnIds(s), Sender, uid);
    var received := SelectByParty(s.txns, TxnIds(s), Receiver, uid);
    assert GetUserTransactions(s, uid) == sent + received;
    k := |sent|;
    SplitAt(sent, received);
  }

  /** The positions of a concatenation before and after the seam. */
  lemma SplitAt<T>(a: seq<T>, b: seq<T>)
    ensures forall i :: 0 <= i < |a| ==> (a + b)[i] == a[i]
    ensures forall i :: |a| <= i < |a + b| ==> (a + b)[i] == b[i - |a|]
  {
  }

  /**
   * A transfer occurs in a user's listing once for each of its two user
   * columns that holds the user: twice for a self-transfer.
   */
  lemma UserTransactionsCount(s: Store, uid: int, id: int)
    requires Valid(s)
    requires id in s.txns
    ensures multiset(GetUserTransactions(s, uid))[TxnRowOf(id, s.txns[id])]
            == (if s.txns[id].senderId == uid then 1 else 0) + (if s.txns[id].receiverId == uid then 1 else 0)
  {
    var ids := TxnIds(s);
    assert id in ids;
    SelectByPartyCount(s.txns, ids, Sender, uid, id);
    SelectByPartyCount(s.txns, ids, Receiver, uid, id);
    assert GetUserTransactions(s, uid)
        == SelectByParty(s.txns, ids, Sender, uid) + SelectByParty(s.txns, ids, Receiver, uid);
  }

  /** Over ascending ids, one selection holds a matching row exactly once. */
  lemma {:induction false} SelectByPartyCount(txns: map<int, Txn>, ids: seq<int>, p: Party, uid: int, k: int)
    requires forall i, j :: 0 <= i < j < |ids| ==> ids[i] < ids[j]
    requires k in txns
    ensures multiset(SelectByParty(txns, ids, p, uid))[TxnRowOf(k, txns[k])]
            == if k in ids && PartyOf(txns[k], p) == uid then 1 else 0
  {
    if ids != [] {
      SelectByPartyCount(txns, ids[1..], p, uid, k);
      if k == ids[0] {
        assert k !in ids[1..] by {
          forall i | 0 <= i < |ids[1..]| ensures ids[1..][i] != k {
            assert ids[1..][i] == ids[i + 1];
          }
        }
      }
      assert ids == [ids[0]] + ids[1..];
    }
  }

  /** The listing holds a transfer exactly when the user sent or received it. */
  lemma UserTransactionsExactly(s: Store, uid: int, id: int)
    requires Valid(s)
    ensures (id in s.txns && (s.txns[id].senderId == uid || s.txns[id].receiverId == uid))
            <==> (exists t :: t in GetUserTransactions(s, uid) && t.id == id)
  {
    if id in s.txns && (s.txns[id].senderId == uid || s.txns[id].receiverId == uid) {
      assert TxnRowOf(id, s.txns[id]) in GetUserTransactions(s, uid);
    }
  }

  /**
   * The example session: A with 100 sends 40 to B with 0, pending; accepting it
   * leaves A with 60 and B with 40; resolving it again is refused with 403.
   */
  lemma ExampleSession()
    ensures
      var s0 := Init();
      var a := CreateUser(s0, Some("A"), Some("a"), Some(100));
      var b := CreateUser(a.store, Some("B"), Some("b"), None);
      var send := SendMoney(b.store, Some(1), Some(2), Some(40), None, None, 1);
      var accept := VenmoApp.UpdateTransaction(send.store, 1, Some(true), 2);
      var again := VenmoApp.UpdateTransaction(accept.store, 1, Some(false), 3);
      && a.result.Ok? && a.result.value.user.id == 1
      && b.result.Ok? && b.result.value.user.id == 2
      && send.result.Ok? && send.result.value.id == 1 && send.result.value.accepted.None?
      && BalanceOf(send.store, 1) == 100 && BalanceOf(send.store, 2) == 0
      && accept.result.Ok? && accept.result.value.accepted == Some(true)
      && BalanceOf(accept.store, 1) == 60 && BalanceOf(accept.store, 2) == 40
      && again.result.Err? && again.result.error.code == Forbidden
      && again.store == accept.store
  {
  }

  /** Sending more than the sender holds with accepted true is refused and records nothing. */
  lemma ExampleInsufficientFunds()
    ensures
      var a := CreateUser(Init(), Some("A"), Some("a"), Some(10));
      var b := CreateUser(a.store, Some("B"), Some("b"), None);
      var send := SendMoney(b.store, Some(1), Some(2), Some(50), None, Some(true), 1);
      && send.result == Err(Failure(Forbidden, "insufficient balance!"))
      && send.store == b.store
      && GetAllTransactions(send.store) == []
  {
  }
}
