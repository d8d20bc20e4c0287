/**
 * The account store service: signup, the read-only queries, credential
 * validation and the balance update that transfers use.
 */
module Users {
  import opened Wrappers
  import opened Entities
  import opened Store

  /** The listing `findAll` returns: every stored row without its password hash. */
  function Listing(s: Store): set<PublicUser>
  {
    set id | id in s :: WithoutPassword(s[id])
  }

  /** The listing has exactly one entry per stored account. */
  lemma {:induction false} ListingSize(s: Store)
    requires KeyedById(s)
    ensures |Listing(s)| == |s.Keys|
    decreases s.Keys
  {
    if s != map[] {
      var k := AnyKey(s);
      var rest := s - {k};
      ListingSize(rest);
      assert Listing(s) == Listing(rest) + {WithoutPassword(s[k])};
      assert WithoutPassword(s[k]) !in Listing(rest);
      assert s.Keys == rest.Keys + {k};
    }
  }

  class UsersService {
    /** The users table. */
    var users: Store

    ghost predicate Valid()
      reads this
    {
      WellFormed(users)
    }

    constructor ()
      ensures Valid() && users == map[]
    {
      users := map[];
    }

    /** The row with this primary key, or None. */
    function FindById(id: Id): (r: Option<User>)
      reads this
      ensures r.Some? <==> id in users
      ensures r.Some? ==> r.value == users[id]
      ensures Valid() && r.Some? ==> r.value.id == id
    {
      if id in users then Some(users[id]) else None
    }

    /** The row with this username, or None; usernames are unique, so there is at most one. */
    function FindByUsername(username: string): (r: Option<User>)
      reads this
      requires Valid()
      ensures r.Some? <==> HasUsername(users, username)
      ensures r.Some? ==> r.value.username == username && r.value.id in users && users[r.value.id] == r.value
    {
      if HasUsername(users, username) then
        var id :| id in users && users[id].username == username;
        Some(users[id])
      else
        None
    }

    /** Every stored user with the password column left out. */
    function FindAll(): (r: set<PublicUser>)
      reads this
      requires Valid()
      ensures forall id :: id in users ==> WithoutPassword(users[id]) in r
      ensures forall p :: p in r ==> p.id in users && p == WithoutPassword(users[p.id])
      ensures |r| == |users.Keys|
    {
      ListingSize(users);
      Listing(users)
    }

    /**
     * The user whose username and password check out, or None. `matches`
     * stands for the password-hash comparison.
     */
    function ValidateUser(username: string, password: string, matches: (string, string) -> bool): (r: Option<User>)
      reads this
      requires Valid()
      ensures r.Some? <==> exists id :: id in users && users[id].username == username && matches(password, users[id].password)
      ensures r.Some? ==> r.value.id in users && users[r.value.id] == r.value && r.value.username == username
    {
      var user := FindByUsername(username);
      if user.Some? && matches(password, user.value.password) then user else None
    }

    /**
     * Signup: rejects a username that is already stored, otherwise stores a
     * new user under `freshId` with the hashed password and the starting
     * balance, and returns its id. `freshId` stands for the generated UUID
     * and `hash` for the password hashing.
     */
    method Create(username: string, password: string, birthdate: string, hash: string -> string, freshId: Id)
      returns (r: Result<Id, Error>)
      requires Valid()
      requires freshId !in users
      modifies this
      ensures Valid()
      ensures old(HasUsername(users, username)) ==> r == Failure(UsernameTaken) && users == old(users)
      ensures !old(HasUsername(users, username)) ==>
        r == Success(freshId) &&
        users == old(users)[freshId := User(freshId, username, hash(password), birthdate, StartingBalance)]
    {
      var existing := FindByUsername(username);
      if existing.Some? {
        return Failure(UsernameTaken);
      }
      var user := User(freshId, username, hash(password), birthdate, StartingBalance);
      users := users[freshId := user];
      r := Success(user.id);
    }

    /**
     * Overwrites the balance of one user; fails with not-found, changing
     * nothing, when no row has that id.
     */
    method UpdateBalance(userId: Id, newBalance: Cents) returns (r: Outcome<Error>)
      requires Valid()
      modifies this
      ensures Valid()
      ensures r.Pass? <==> userId in old(users)
      ensures r.Fail? ==> r.error == UserNotFound && users == old(users)
      ensures r.Pass? ==> users == WithBalance(old(users), userId, newBalance)
    {
      if userId !in users {
        return Fail(UserNotFound);
      }
      WithBalanceWellFormed(users, userId, newBalance);
      users := WithBalance(users, userId, newBalance);
      r := Pass;
    }
  }

  /** Signup adds exactly the starting balance to the money in the store. */
  lemma CreateAddsStartingBalance(s: Store, freshId: Id, username: string, passwordHash: string, birthdate: string)
    requires freshId !in s
    ensures Total(s[freshId := User(freshId, username, passwordHash, birthdate, StartingBalance)]) == Total(s) + StartingBalance
  {
    TotalWithNew(s, User(freshId, username, passwordHash, birthdate, StartingBalance));
  }

  /** Signup keeps every balance non-negative and the usernames unique. */
  lemma CreateKeepsInvariants(s: Store, freshId: Id, username: string, passwordHash: string, birthdate: string)
    requires freshId !in s && WellFormed(s) && Solvent(s) && !HasUsername(s, username)
    ensures var s' := s[freshId := User(freshId, username, passwordHash, birthdate, StartingBalance)];
      WellFormed(s') && Solvent(s') && HasUsername(s', username)
  {
    var s' := s[freshId := User(freshId, username, passwordHash, birthdate, StartingBalance)];
    assert s'[freshId].username == username;
  }
}
