# Ledger transfer core

A model of the money-moving core of a small ledger service. Users sign up with
a unique username and receive a starting balance of 100.00; an authenticated
caller moves money from one account to another with `transfer`, which runs a
fixed series of checks, writes the two new balances through the users service
and appends one record to the transaction table.

The model has five modules:

- `Wrappers`: `Option`, `Result` and `Outcome`, standing for `null` results and thrown exceptions.
- `Entities`: the user row, the transaction record, the error kinds and the exception class each is thrown as.
- `Store`: the users table as a map from primary key to row. It defines the table invariants (rows keyed by id, unique usernames), the single-row balance overwrite `WithBalance`, and `Total`, the sum of all balances, with the lemmas that tie `Total` to balance writes and inserts.
- `Users`: class `UsersService`. Its field `users` is the table. The read-only queries (`FindById`, `FindByUsername`, `FindAll`, `ValidateUser`) are functions. `Create` and `UpdateBalance`, which change the table, are methods.
- `Transactions`: `TransferCheck` is the ordered validation and `Transferred` the store a successful transfer leaves. Class `TransactionsService` holds the users service and the transaction log (`log: seq<Transaction>`). Its method `Transfer` is proved equal to those two functions, and the lemmas beside them prove that money is conserved and that balances stay non-negative.

Money is integer cents: both money columns are decimals with scale 2, so the
starting balance 100 is `StartingBalance == 10000`. The password hash and the
hash comparison are function parameters (`hash`, `matches`) with no assumed
properties. The generated UUID of a new user is the parameter `freshId`, which
must not already be a key.

## Model

| member | source | states |
|---|---|---|
| `Entities.ExceptionOf` | src/transactions/transactions.service.ts:23-46 | self-transfer, non-positive amount and insufficient balance are bad requests; a missing sender or receiver, and a balance update of an unknown id (users.service.ts:73-75), are not-found; a taken username at signup (users.service.ts:24-26) is a conflict |
| `Store.WithBalance` | src/users/users.service.ts:67-71 | overwriting one balance keeps the same keys, sets that row's balance, keeps every other column of that row and every other row unchanged |
| `Store.WithBalanceWellFormed` | src/users/entities/user.entity.ts:5-9 | a balance write keeps rows keyed by their id and usernames unique |
| `Store.TotalWithBalance` | src/users/users.service.ts:67-71 | a balance write changes the total money in the store by exactly new minus old balance |
| `Users.ListingSize` | src/users/users.service.ts:53-57 | the password-free listing has exactly one entry per stored account |
| `Users.UsersService.FindById` | src/users/users.service.ts:47-51 | returns the row with that id (whose id field is that id), or None exactly when no row has it; reads only |
| `Users.UsersService.FindByUsername` | src/users/users.service.ts:41-45 | returns a stored row with that username, or None exactly when no row has it; reads only |
| `Users.UsersService.FindAll` | src/users/users.service.ts:53-57 | every stored user appears without its password hash, nothing else appears, and the listing has as many entries as there are users |
| `Users.UsersService.ValidateUser` | src/users/users.service.ts:59-65 | returns the stored user exactly when a row has that username and the password matches its hash, otherwise None |
| `Users.UsersService.Create` | src/users/users.service.ts:19-39 | an existing username fails with the conflict error and changes nothing; otherwise exactly one row is added under the fresh id with the username, hashed password, birthdate and balance 100.00, its id is returned, and usernames stay unique |
| `Users.UsersService.UpdateBalance` | src/users/users.service.ts:67-76 | an unknown id fails with not-found and changes nothing; a known id gets the new balance and nothing else changes |
| `Users.CreateAddsStartingBalance` | src/users/users.service.ts:30-38 | signup adds exactly the starting balance to the total money in the store |
| `Users.CreateKeepsInvariants` | src/users/users.service.ts:20-38 | signup of a new username keeps rows keyed by id, usernames unique and every balance non-negative, and the username is then stored |
| `Transactions.TransferCheck` | src/transactions/transactions.service.ts:23-46 | the checks run in order: self-transfer, non-positive amount, missing sender, missing receiver, insufficient funds; each error arises exactly under its condition and all earlier checks passing; a balance equal to the amount passes |
| `Transactions.Transferred` | src/transactions/transactions.service.ts:48-54 | the sender loses the amount and stays non-negative, the receiver gains it, the pair's sum is unchanged, every other account and every non-balance column are unchanged |
| `Transactions.TransferConservesTotal` | src/transactions/transactions.service.ts:44-54 | a successful transfer leaves the total money in the store unchanged |
| `Transactions.TransferKeepsInvariants` | src/transactions/transactions.service.ts:44-54 | a successful transfer keeps every balance non-negative, rows keyed by id and usernames unique |
| `Transactions.WholeBalanceTransfer` | src/transactions/transactions.service.ts:44-46 | transferring the sender's whole balance is allowed and leaves it at zero |
| `Transactions.TransferExample` | src/transactions/transactions.service.spec.ts:59-142 | balances 100.00 and 200.00 become 50.00 and 250.00 after a 50.00 transfer; 150.00, a self-transfer, -50.00, an unknown sender and an unknown receiver are refused with their errors |
| `Transactions.TransactionsService.Transfer` | src/transactions/transactions.service.ts:20-63 | the outcome is the ordered check's verdict; on failure neither the store nor the log changes; on success the store is the transferred store and exactly one record (sender, receiver, amount) is appended; every logged record names two distinct stored accounts and a positive amount |

## Left out

- HTTP controllers, module wiring, guards and DTO validation decorators: routing and framework validation, with no logic the services do not repeat.
- Token issuance after `validateUser` in the auth service: a call into the JWT library.
- Password hashing and comparison: `hash` and `matches` are uninterpreted parameters, not cryptography.
- UUID generation, the transaction record's own id and its `createdAt` timestamp: the new user's id is the `freshId` parameter; a log record holds only sender, receiver and amount.
- Order of the `findAll` listing: it is a set, since the query has no ordering and each id appears once; the order of the returned array is not modelled.
- Persistence: the tables are an in-memory map and sequence.
- Concurrency: the two balance writes, issued together in the source, are two sequential `UpdateBalance` calls. Interleaving with other transfers, the lost-update hazard and a crash between the writes are not modelled. Without them both writes always succeed, because both ids were just found.
- Floating-point `Number` arithmetic: money is exact integer cents, so fractions of a cent and rounding are not modelled.
- The decimal column's precision of 10 digits: balances are unbounded integers, so an overflow of the column is not modelled.
- Non-negativity of arbitrary balance writes: like the source, `UpdateBalance` accepts any balance, negative ones included. Non-negativity is proved for `Create` and `Transfer`, not for arbitrary balance writes.
