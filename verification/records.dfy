/** Rows, codes and small shared definitions of the courier backend.

    The user table is keyed by username; the item table is kept in the order
    rows were inserted, which is the order a plain `SELECT` scan returns them. */
module Records {

  datatype Option<T> = None | Some(value: T)

  /** Role codes stored in the `type` column of the user table. */
  const CUSTOMER: int := 0
  const ADMINISTRATOR: int := 1

  /** Item state codes. The source spells the second one PENDING_REVEICING. */
  const RECEIVED: int := 1
  const PENDING_RECEIVING: int := 2

  /** Upper bound the handlers put on balances and on a single balance change. */
  const BALANCE_LIMIT: int := 1000000000

  /** A calendar date as three integers; -1 in a part means "unset". */
  datatype Time = Time(year: int, month: int, day: int)

  /** The unset date: the receiving time of a pending item, and an absent date filter. */
  const NO_TIME: Time := Time(-1, -1, -1)

  /** A row of the user table, without its key. */
  datatype UserRow = UserRow(password: string, role: int, balance: int,
                             name: string, phoneNumber: string, address: string)

  /** A row of the item table. Items are immutable snapshots: the store
      replaces a row, it never mutates one handed out by a query. */
  datatype Item = Item(id: int, cost: int, state: int,
                       sendingTime: Time, receivingTime: Time,
                       srcName: string, dstName: string, description: string)

  /** The whole store: both tables and the in-memory username set that
      mirrors the username file. */
  datatype Db = Db(users: map<string, UserRow>, usernameSet: set<string>, items: seq<Item>)

  /** The source aborts when a stored username is missing from the set. */
  predicate NameRegistered(db: Db, username: string) {
    username in db.users ==> username in db.usernameSet
  }

  /** Every stored user is in the username set. */
  predicate Registered(db: Db) {
    db.users.Keys <= db.usernameSet
  }

  /** Some row of the item table carries this id. */
  predicate HasId(items: seq<Item>, id: int) {
    exists i :: 0 <= i < |items| && items[i].id == id
  }

  /** The primary key of the item table. */
  predicate UniqueIds(items: seq<Item>) {
    forall i, j :: 0 <= i < j < |items| ==> items[i].id != items[j].id
  }

  /** Every stored balance lies in [0, BALANCE_LIMIT]. */
  predicate StoredBalancesInRange(db: Db) {
    forall u :: u in db.users ==> 0 <= db.users[u].balance <= BALANCE_LIMIT
  }

  /** Appending a row whose id is not yet used keeps the ids unique. */
  lemma AppendFreshKeepsUnique(items: seq<Item>, item: Item)
    requires !HasId(items, item.id)
    ensures UniqueIds(items) ==> UniqueIds(items + [item])
    ensures HasId(items + [item], item.id)
  {
    var extended := items + [item];
    assert extended[|items|] == item;
    if UniqueIds(items) {
      forall i, j | 0 <= i < j < |extended|
        ensures extended[i].id != extended[j].id
      {
        if j == |items| {
          assert extended[i] == items[i];
        } else {
          assert extended[i] == items[i] && extended[j] == items[j];
        }
      }
    }
  }
}
