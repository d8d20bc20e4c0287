/**
 * The transfer engine: the ordered validation of a transfer request, the two
 * balance writes it performs, and the append-only log of completed transfers.
 */
module Transactions {
  import opened Wrappers
  import opened Entities
  import opened Store
  import opened Users

  /**
   * The verdict of the checks a transfer runs before it writes anything,
   * in the order they run: self-transfer, amount, sender, receiver, funds.
   */
  function TransferCheck(s: Store, fromId: Id, toId: Id, amount: Cents): (r: Outcome<Error>)
    ensures r.Pass? <==>
      fromId != toId && amount > 0 && fromId in s && toId in s && s[fromId].balance >= amount
    ensures r == Fail(SelfTransfer) <==> fromId == toId
    ensures r == Fail(NonPositiveAmount) <==> fromId != toId && amount <= 0
    ensures r == Fail(SenderNotFound) <==> fromId != toId && amount > 0 && fromId !in s
    ensures r == Fail(ReceiverNotFound) <==> fromId != toId && amount > 0 && fromId in s && toId !in s
    ensures r == Fail(InsufficientBalance) <==>
      fromId != toId && amount > 0 && fromId in s && toId in s && s[fromId].balance < amount
    ensures r.Fail? ==> (ExceptionOf(r.error) == NotFound <==> r.error == SenderNotFound || r.error == ReceiverNotFound)
    ensures r.Fail? ==> (ExceptionOf(r.error) == BadRequest <==> r.error != SenderNotFound && r.error != ReceiverNotFound)
  {
    if fromId == toId then Fail(SelfTransfer)
    else if amount <= 0 then Fail(NonPositiveAmount)
    else if fromId !in s then Fail(SenderNotFound)
    else if toId !in s then Fail(ReceiverNotFound)
    else if s[fromId].balance < amount then Fail(InsufficientBalance)
    else Pass
  }

  /** The store after a transfer that passed its checks: debit the sender, then credit the receiver. */
  function Transferred(s: Store, fromId: Id, toId: Id, amount: Cents): (r: Store)
    requires TransferCheck(s, fromId, toId, amount).Pass?
    ensures r.Keys == s.Keys
    ensures r[fromId].balance == s[fromId].balance - amount >= 0
    ensures r[toId].balance == s[toId].balance + amount
    ensures r[fromId].balance + r[toId].balance == s[fromId].balance + s[toId].balance
    ensures forall k :: k in s && k != fromId && k != toId ==> r[k] == s[k]
    ensures forall k :: k in s ==> r[k] == s[k].(balance := r[k].balance)
  {
    var debited := WithBalance(s, fromId, s[fromId].balance - amount);
    WithBalance(debited, toId, s[toId].balance + amount)
  }

  /** A transfer moves money between accounts: the total in the store is unchanged. */
  lemma {:induction false} TransferConservesTotal(s: Store, fromId: Id, toId: Id, amount: Cents)
    requires TransferCheck(s, fromId, toId, amount).Pass?
    ensures Total(Transferred(s, fromId, toId, amount)) == Total(s)
  {
    var debited := WithBalance(s, fromId, s[fromId].balance - amount);
    TotalWithBalance(s, fromId, s[fromId].balance - amount);
    TotalWithBalance(debited, toId, s[toId].balance + amount);
  }

  /** A transfer keeps every balance non-negative and the table invariants intact. */
  lemma TransferKeepsInvariants(s: Store, fromId: Id, toId: Id, amount: Cents)
    requires TransferCheck(s, fromId, toId, amount).Pass?
    requires WellFormed(s) && Solvent(s)
    ensures WellFormed(Transferred(s, fromId, toId, amount))
    ensures Solvent(Transferred(s, fromId, toId, amount))
  {
  }

  /** A balance exactly equal to the amount is enough, and empties the sender's account. */
  lemma WholeBalanceTransfer(s: Store, fromId: Id, toId: Id)
    requires fromId != toId && fromId in s && toId in s && s[fromId].balance > 0
    ensures TransferCheck(s, fromId, toId, s[fromId].balance).Pass?
    ensures Transferred(s, fromId, toId, s[fromId].balance)[fromId].balance == 0
  {
  }

  /**
   * The worked example: accounts holding 100.00 and 200.00; a transfer of
   * 50.00 leaves 50.00 and 250.00; one of 150.00, a self-transfer, a
   * negative amount and unknown accounts are refused.
   */
  lemma TransferExample(u1: User, u2: User)
    requires u1.id == "1" && u1.balance == 10000
    requires u2.id == "2" && u2.balance == 20000
    ensures var s := map["1" := u1, "2" := u2];
      && TransferCheck(s, "1", "2", 5000) == Pass
      && Transferred(s, "1", "2", 5000)["1"].balance == 5000
      && Transferred(s, "1", "2", 5000)["2"].balance == 25000
      && TransferCheck(s, "1", "2", 15000) == Fail(InsufficientBalance)
      && TransferCheck(s, "1", "1", 5000) == Fail(SelfTransfer)
      && TransferCheck(s, "1", "2", -5000) == Fail(NonPositiveAmount)
      && TransferCheck(s, "nonexistent", "2", 1000) == Fail(SenderNotFound)
      && TransferCheck(s, "1", "nonexistent", 1000) == Fail(ReceiverNotFound)
  {
  }

  class TransactionsService {
    /** The account store the service reads and writes balances through. */
    const users: UsersService
    /** The transaction table: one record per completed transfer, in order. */
    var log: seq<Transaction>

    /**
     * The store is well formed, and every record names two distinct stored
     * accounts and a positive amount.
     */
    ghost predicate Valid()
      reads this, users
    {
      && users.Valid()
      && forall t :: t in log ==>
           t.fromUser != t.toUser && t.amount > 0 && t.fromUser in users.users && t.toUser in users.users
    }

    constructor (users: UsersService)
      requires users.Valid()
      ensures Valid() && this.users == users && log == []
    {
      this.users := users;
      log := [];
    }

    /**
     * Moves `amount` from `fromId` to `toId`. Fails, changing nothing, as
     * `TransferCheck` decides; otherwise writes both balances and then
     * appends one record.
     */
    method Transfer(fromId: Id, toId: Id, amount: Cents) returns (r: Outcome<Error>)
      requires Valid()
      modifies this, users
      ensures Valid()
      ensures r == TransferCheck(old(users.users), fromId, toId, amount)
      ensures r.Fail? ==> users.users == old(users.users) && log == old(log)
      ensures r.Pass? ==>
        && users.users == Transferred(old(users.users), fromId, toId, amount)
        && log == old(log) + [Transaction(fromId, toId, amount)]
    {
      if fromId == toId {
        return Fail(SelfTransfer);
      }
      if amount <= 0 {
        return Fail(NonPositiveAmount);
      }
      var fromUser := users.FindById(fromId);
      var toUser := users.FindById(toId);
      if fromUser.None? {
        return Fail(SenderNotFound);
      }
      if toUser.None? {
        return Fail(ReceiverNotFound);
      }
      if fromUser.value.balance < amount {
        return Fail(InsufficientBalance);
      }
      var newFromBalance := fromUser.value.balance - amount;
      var newToBalance := toUser.value.balance + amount;

      var debit := users.UpdateBalance(fromId, newFromBalance);
      var credit := users.UpdateBalance(toId, newToBalance);
      assert debit.Pass? && credit.Pass?;

      log := log + [Transaction(fromUser.value.id, toUser.value.id, amount)];
      r := Pass;
    }
  }
}
