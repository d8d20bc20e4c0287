/**
 * The users table as an in-memory map from primary key to row, with the
 * invariants the table keeps and the total amount of money it holds.
 */
module Store {
  import opened Entities

  type Store = map<Id, User>

  /** Every row is stored under its own primary key. */
  ghost predicate KeyedById(s: Store)
  {
    forall id :: id in s ==> s[id].id == id
  }

  /** The `unique: true` constraint on the username column. */
  ghost predicate UniqueUsernames(s: Store)
  {
    forall i, j :: i in s && j in s && s[i].username == s[j].username ==> i == j
  }

  /** No account holds a negative balance. */
  ghost predicate Solvent(s: Store)
  {
    forall id :: id in s ==> s[id].balance >= 0
  }

  /** The table invariants that every store operation keeps. */
  ghost predicate WellFormed(s: Store)
  {
    KeyedById(s) && UniqueUsernames(s)
  }

  /** True when some stored row has this username. */
  predicate HasUsername(s: Store, username: string)
  {
    exists id :: id in s && s[id].username == username
  }

  /** The store after the balance column of one row is overwritten. */
  function WithBalance(s: Store, id: Id, balance: Cents): (r: Store)
    requires id in s
    ensures r.Keys == s.Keys
    ensures r[id].balance == balance
    ensures r[id].id == s[id].id && r[id].username == s[id].username
    ensures r[id].password == s[id].password && r[id].birthdate == s[id].birthdate
    ensures forall k :: k in s && k != id ==> r[k] == s[k]
  {
    s[id := s[id].(balance := balance)]
  }

  lemma WithBalanceWellFormed(s: Store, id: Id, balance: Cents)
    requires id in s && WellFormed(s)
    ensures WellFormed(WithBalance(s, id, balance))
  {
  }

  /** Some key of a non-empty store; the one `Total` takes out first. */
  ghost function AnyKey(s: Store): (k: Id)
    requires s != map[]
    ensures k in s
  {
    var k :| k in s; k
  }

  /** The sum of all balances in the store. */
  ghost function Total(s: Store): Cents
    decreases s.Keys
  {
    if s == map[] then 0 else
      var k := AnyKey(s);
      s[k].balance + Total(s - {k})
  }

  /** Any key can be taken out of the sum first, not only the one `Total` picks. */
  lemma {:induction false} TotalWithout(s: Store, k: Id)
    requires k in s
    ensures Total(s) == s[k].balance + Total(s - {k})
    decreases s.Keys
  {
    var j := AnyKey(s);
    if j != k {
      calc {
        Total(s);
        s[j].balance + Total(s - {j});
        { TotalWithout(s - {j}, k); }
        s[j].balance + s[k].balance + Total(s - {j} - {k});
        { assert s - {j} - {k} == s - {k} - {j}; }
        s[k].balance + (s[j].balance + Total(s - {k} - {j}));
        { TotalWithout(s - {k}, j); }
        s[k].balance + Total(s - {k});
      }
    }
  }

  /** Overwriting one balance changes the total by exactly the difference. */
  lemma {:induction false} TotalWithBalance(s: Store, id: Id, balance: Cents)
    requires id in s
    ensures Total(WithBalance(s, id, balance)) == Total(s) - s[id].balance + balance
  {
    var r := WithBalance(s, id, balance);
    TotalWithout(s, id);
    TotalWithout(r, id);
    assert r - {id} == s - {id};
  }

  /** Adding a row under a new key adds its balance to the total. */
  lemma {:induction false} TotalWithNew(s: Store, u: User)
    requires u.id !in s
    ensures Total(s[u.id := u]) == Total(s) + u.balance
  {
    TotalWithout(s[u.id := u], u.id);
    assert s[u.id := u] - {u.id} == s;
  }
}
