/** The persistent store: row-level operations on the user and item tables.

    Every operation that runs an SQL statement takes `executes`, which says
    whether that statement ran; the source reports a failing statement only
    through its return value, so that is where the flag shows. */
module Database {
  import opened Records

  /** Username and row of the administrator account created at first start. */
  const ADMIN_USERNAME: string := "ADMINISTRATOR"
  const ADMIN_ROW: UserRow :=
    UserRow("123", ADMINISTRATOR, 0, "Administrator1", "88888888", "\U{73AF}\U{5B87}\U{7269}\U{6D41}\U{5927}\U{53A6}")

  /** Opening the store: the username file's lines become the username set,
      and the administrator row is inserted unless the file already names it. */
  function Open(users: map<string, UserRow>, items: seq<Item>, fileLines: seq<string>): (db: Db)
    ensures db.items == items
    ensures forall line :: line in fileLines ==> line in db.usernameSet
    ensures ADMIN_USERNAME in fileLines ==> db.users == users
    ensures ADMIN_USERNAME !in fileLines ==> ADMIN_USERNAME in db.users
    ensures ADMIN_USERNAME !in fileLines && ADMIN_USERNAME !in users ==>
              db.users == users[ADMIN_USERNAME := ADMIN_ROW]
    ensures ADMIN_USERNAME in users ==> db.users == users
    ensures forall name :: name in db.usernameSet <==>
              name in fileLines || (name == ADMIN_USERNAME && ADMIN_USERNAME !in users)
    ensures (forall u :: u in users ==> u in fileLines) ==> Registered(db)
  {
    var names := set line | line in fileLines;
    var loaded := Db(users, names, items);
    if ADMIN_USERNAME in fileLines then loaded
    else InsertUser(loaded, ADMIN_USERNAME, ADMIN_ROW, true)
  }

  /** INSERT of a user row. The username is the primary key, so a taken name
      makes the statement fail like any other failure: nothing changes. */
  function InsertUser(db: Db, username: string, row: UserRow, executes: bool): (r: Db)
    ensures executes && username !in db.users ==>
              r.users == db.users[username := row] && r.usernameSet == db.usernameSet + {username}
    ensures !executes || username in db.users ==> r == db
    ensures r.items == db.items
    ensures Registered(db) ==> Registered(r)
  {
    if executes && username !in db.users then
      db.(users := db.users[username := row], usernameSet := db.usernameSet + {username})
    else
      db
  }

  /** Whether a user row with this name exists. A stored name missing from
      the username set aborts the program, hence the precondition. */
  function QueryUserByName(db: Db, username: string): (found: bool)
    requires NameRegistered(db, username)
    ensures found <==> username in db.users
  {
    username in db.users
  }

  /** The seven-argument lookup: the row, if any. It does not consult the
      username set. */
  function QueryUserRow(db: Db, username: string): (r: Option<UserRow>)
    ensures r.Some? <==> username in db.users
    ensures r.Some? ==> r.value == db.users[username]
  {
    if username in db.users then Some(db.users[username]) else None
  }

  /** The stored balance; a missing row aborts the program. */
  function QueryBalanceByName(db: Db, username: string): (balance: int)
    requires username in db.users
    ensures QueryUserRow(db, username).Some? && QueryUserRow(db, username).value.balance == balance
  {
    db.users[username].balance
  }

  /** Only the row `username` may differ between `a` and `b`, and it still exists. */
  predicate UsersFrame(a: Db, b: Db, username: string) {
    && a.users.Keys == b.users.Keys
    && a.usernameSet == b.usernameSet
    && a.items == b.items
    && forall u :: u in a.users && u != username ==> b.users[u] == a.users[u]
  }

  /** The user columns modifyData is called with. */
  datatype UserField = Password(password: string) | Balance(balance: int)

  function WithUserField(row: UserRow, field: UserField): UserRow {
    match field
    case Password(p) => row.(password := p)
    case Balance(b) => row.(balance := b)
  }

  /** UPDATE of one user column. It reports success whenever the statement
      runs, also when no row has that key. */
  function ModifyUser(db: Db, username: string, field: UserField, executes: bool): (r: (Db, bool))
    ensures r.1 == executes
    ensures UsersFrame(db, r.0, username)
    ensures username in db.users ==>
              r.0.users[username] == if executes then WithUserField(db.users[username], field) else db.users[username]
  {
    if executes && username in db.users then
      (db.(users := db.users[username := WithUserField(db.users[username], field)]), true)
    else
      (db, executes)
  }

  function ModifyUserPassword(db: Db, username: string, password: string, executes: bool): (r: (Db, bool))
    ensures r.1 == executes
    ensures UsersFrame(db, r.0, username)
    ensures username in db.users ==>
              r.0.users[username] == if executes then db.users[username].(password := password) else db.users[username]
  {
    ModifyUser(db, username, Password(password), executes)
  }

  /** The new balance is absolute, not a delta. */
  function ModifyUserBalance(db: Db, username: string, balance: int, executes: bool): (r: (Db, bool))
    ensures r.1 == executes
    ensures UsersFrame(db, r.0, username)
    ensures username in db.users ==>
              r.0.users[username] == if executes then db.users[username].(balance := balance) else db.users[username]
  {
    ModifyUser(db, username, Balance(balance), executes)
  }

  /** SELECT MAX(id): an empty table yields NULL, read as 0; a failing
      statement yields 0 too. */
  function GetDBMaxId(db: Db, executes: bool): (maxId: int)
    ensures !executes || db.items == [] ==> maxId == 0
    ensures executes && db.items != [] ==> HasId(db.items, maxId)
    ensures executes ==> forall i :: 0 <= i < |db.items| ==> db.items[i].id <= maxId
  {
    if executes && db.items != [] then MaxId(db.items) else 0
  }

  function MaxId(items: seq<Item>): (m: int)
    requires items != []
    ensures HasId(items, m)
    ensures forall i :: 0 <= i < |items| ==> items[i].id <= m
  {
    if |items| == 1 then items[0].id
    else
      var rest := MaxId(items[1..]);
      assert forall i :: 1 <= i < |items| ==> items[i] == items[1..][i - 1];
      if items[0].id >= rest then items[0].id else rest
  }

  /** INSERT of an item row; a used id violates the primary key and the
      statement fails. A new row is scanned after the existing ones. */
  function InsertItem(db: Db, item: Item, executes: bool): (r: Db)
    ensures executes && !HasId(db.items, item.id) ==> r.items == db.items + [item]
    ensures !executes || HasId(db.items, item.id) ==> r.items == db.items
    ensures r.users == db.users && r.usernameSet == db.usernameSet
    ensures UniqueIds(db.items) ==> UniqueIds(r.items)
  {
    if executes && !HasId(db.items, item.id) then
      AppendFreshKeepsUnique(db.items, item);
      db.(items := db.items + [item])
    else
      db
  }

  /** The criteria of queryItemByFilter; -1, the unset date and "" mean
      "no constraint". */
  datatype Filter = Filter(id: int, sendingTime: Time, receivingTime: Time, srcName: string, dstName: string)

  const NO_FILTER: Filter := Filter(-1, NO_TIME, NO_TIME, "", "")

  function IdFilter(id: int): Filter {
    NO_FILTER.(id := id)
  }

  /** A date group takes part in the query when its day or month is set.
      The source tests the day twice and the year never, so a filter on the
      year alone is dropped. */
  predicate DateGroupActive(t: Time) {
    t.day != -1 || t.month != -1 || t.day != -1
  }

  /** The WHERE clause: every active criterion, conjoined. An active date
      group compares year, month and day. */
  predicate Matches(f: Filter, item: Item) {
    && (f.id != -1 ==> item.id == f.id)
    && (DateGroupActive(f.sendingTime) ==> item.sendingTime == f.sendingTime)
    && (DateGroupActive(f.receivingTime) ==> item.receivingTime == f.receivingTime)
    && (f.srcName != "" ==> item.srcName == f.srcName)
    && (f.dstName != "" ==> item.dstName == f.dstName)
  }

  /** The rows a scan with this filter returns, in table order. */
  function Select(items: seq<Item>, f: Filter): (r: seq<Item>)
    ensures |r| <= |items|
    ensures forall x :: x in r ==> x in items && Matches(f, x)
    ensures forall x :: x in items && Matches(f, x) ==> x in r
    ensures forall x :: multiset(r)[x] == if Matches(f, x) then multiset(items)[x] else 0
  {
    if items == [] then []
    else
      var rest := Select(items[1..], f);
      assert items == [items[0]] + items[1..];
      assert forall x :: x in items ==> x == items[0] || x in items[1..];
      if Matches(f, items[0]) then [items[0]] + rest else rest
  }

  /** queryItemByFilter appends the matching rows to `result`, keeps what
      was there, and returns how many it appended; a failing statement
      appends nothing and returns 0. */
  function QueryItemByFilter(db: Db, result: seq<Item>, f: Filter, executes: bool): (r: (seq<Item>, int))
    ensures 0 <= r.1 && |r.0| == |result| + r.1 && r.0[..|result|] == result
    ensures forall x :: x in r.0[|result|..] ==> x in db.items && Matches(f, x)
    ensures executes ==> forall x :: x in db.items && Matches(f, x) ==> x in r.0[|result|..]
    ensures executes ==>
              forall x :: multiset(r.0[|result|..])[x] == if Matches(f, x) then multiset(db.items)[x] else 0
    ensures !executes ==> r.1 == 0
  {
    if executes then
      var found := Select(db.items, f);
      assert (result + found)[|result|..] == found;
      (result + found, |found|)
    else
      (result, 0)
  }

  /** The item columns modifyData is called with. */
  datatype ItemField = State(state: int) | ReceivingYear(year: int) | ReceivingMonth(month: int) | ReceivingDay(day: int)

  function WithItemField(item: Item, field: ItemField): Item {
    match field
    case State(s) => item.(state := s)
    case ReceivingYear(y) => item.(receivingTime := item.receivingTime.(year := y))
    case ReceivingMonth(m) => item.(receivingTime := item.receivingTime.(month := m))
    case ReceivingDay(d) => item.(receivingTime := item.receivingTime.(day := d))
  }

  /** UPDATE of one item column on the rows whose id matches. */
  function ModifyItem(db: Db, id: int, field: ItemField, executes: bool): (r: (Db, bool))
    ensures r.1 == executes
    ensures r.0.users == db.users && r.0.usernameSet == db.usernameSet
    ensures |r.0.items| == |db.items|
    ensures forall i :: 0 <= i < |db.items| ==>
              r.0.items[i] == if executes && db.items[i].id == id then WithItemField(db.items[i], field) else db.items[i]
  {
    if executes then
      (db.(items := seq(|db.items|, i requires 0 <= i < |db.items| =>
                          if db.items[i].id == id then WithItemField(db.items[i], field) else db.items[i])), true)
    else
      (db, false)
  }

  function ModifyItemState(db: Db, id: int, state: int, executes: bool): (r: (Db, bool))
    ensures r.1 == executes
    ensures r.0.users == db.users && r.0.usernameSet == db.usernameSet
    ensures |r.0.items| == |db.items|
    ensures forall i :: 0 <= i < |db.items| ==>
              r.0.items[i] == if executes && db.items[i].id == id then db.items[i].(state := state) else db.items[i]
  {
    ModifyItem(db, id, State(state), executes)
  }

  /** Three column updates. The result conjoins three flags of which the
      third is never set, so it is always false. */
  function ModifyItemReceivingTime(db: Db, id: int, receivingTime: Time, executes: bool): (r: (Db, bool))
    ensures !r.1
    ensures r.0.users == db.users && r.0.usernameSet == db.usernameSet
    ensures |r.0.items| == |db.items|
    ensures forall i :: 0 <= i < |db.items| ==>
              r.0.items[i] == if executes && db.items[i].id == id then db.items[i].(receivingTime := receivingTime) else db.items[i]
  {
    var flag3 := false;
    var (db1, flag1) := ModifyItem(db, id, ReceivingYear(receivingTime.year), executes);
    var (db2, flag2) := ModifyItem(db1, id, ReceivingMonth(receivingTime.month), executes);
    var (db3, flag2') := ModifyItem(db2, id, ReceivingDay(receivingTime.day), executes);
    (db3, flag1 && flag2' && flag3)
  }

  /** The rows whose id differs, in order. */
  function RemoveRows(items: seq<Item>, id: int): (r: seq<Item>)
    ensures forall x :: x in r <==> x in items && x.id != id
    ensures UniqueIds(items) ==> UniqueIds(r)
  {
    if items == [] then []
    else
      var rest := RemoveRows(items[1..], id);
      assert forall x :: x in items ==> x == items[0] || x in items[1..];
      if items[0].id == id then rest
      else
        assert UniqueIds(items) ==> forall x :: x in rest ==> x.id != items[0].id by {
          if UniqueIds(items) {
            forall x | x in rest ensures x.id != items[0].id {
              var j :| 0 <= j < |items[1..]| && items[1..][j] == x;
              assert items[j + 1] == x;
            }
          }
        }
        [items[0]] + rest
  }

  /** DELETE by id. It returns false when the statement runs and true when
      it fails, the reverse of what its declaration documents. */
  function DeleteItem(db: Db, id: int, executes: bool): (r: (Db, bool))
    ensures r.1 == !executes
    ensures r.0.users == db.users && r.0.usernameSet == db.usernameSet
    ensures executes ==> !HasId(r.0.items, id)
    ensures executes ==> forall x :: x in r.0.items <==> x in db.items && x.id != id
    ensures !executes ==> r.0 == db
    ensures UniqueIds(db.items) ==> UniqueIds(r.0.items)
  {
    if executes then
      var rest := RemoveRows(db.items, id);
      assert forall i :: 0 <= i < |rest| ==> rest[i] in rest;
      (db.(items := rest), false)
    else
      (db, true)
  }

  /** All-sentinel criteria select the whole table. */
  lemma {:induction false} SelectNoFilter(items: seq<Item>)
    ensures Select(items, NO_FILTER) == items
  {
    if items != [] {
      SelectNoFilter(items[1..]);
    }
  }

  /** Two filters that accept the same rows select the same rows. */
  lemma {:induction false} SelectSameMatches(items: seq<Item>, f: Filter, g: Filter)
    requires forall x :: Matches(f, x) == Matches(g, x)
    ensures Select(items, f) == Select(items, g)
  {
    if items != [] {
      SelectSameMatches(items[1..], f, g);
    }
  }

  /** A sending-date criterion that names only the year selects the same rows
      as no sending-date criterion at all. */
  lemma YearAloneIsIgnored(items: seq<Item>, f: Filter, year: int)
    ensures Select(items, f.(sendingTime := Time(year, -1, -1))) == Select(items, f.(sendingTime := NO_TIME))
  {
    SelectSameMatches(items, f.(sendingTime := Time(year, -1, -1)), f.(sendingTime := NO_TIME));
  }

  /** With unique ids, a query by a real id returns at most one row: exactly
      one when the id is stored. */
  lemma {:induction false} SelectById(items: seq<Item>, id: int)
    requires UniqueIds(items)
    requires id != -1
    ensures |Select(items, IdFilter(id))| == if HasId(items, id) then 1 else 0
  {
    if items != [] {
      var tail := items[1..];
      assert UniqueIds(tail) by {
        forall i, j | 0 <= i < j < |tail| ensures tail[i].id != tail[j].id {
          assert tail[i] == items[i + 1] && tail[j] == items[j + 1];
        }
      }
      SelectById(tail, id);
      if items[0].id == id {
        assert forall k :: 0 <= k < |tail| ==> tail[k] == items[k + 1];
      } else {
        assert HasId(items, id) == HasId(tail, id) by {
          if HasId(items, id) {
            var k :| 0 <= k < |items| && items[k].id == id;
            assert k != 0 && tail[k - 1] == items[k];
          }
          if HasId(tail, id) {
            var k :| 0 <= k < |tail| && tail[k].id == id;
            assert items[k + 1] == tail[k];
          }
        }
      }
    }
  }
}
