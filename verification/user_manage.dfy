/** User objects, sessions and the request handlers.

    A handler takes the whole service state and returns the new state with
    the reply text: "" for success, a message otherwise (sendItem replies
    with the cost). The session cache `userMap` keeps its own copy of each
    logged-in user, balance included, apart from the store. */
module UserManage {
  import opened Records
  import Database
  import ItemManage
  import NumberText

  /** A logged-in user object; the constructor is the role. */
  datatype User =
    | Customer(username: string, password: string, balance: int,
               name: string, phoneNumber: string, address: string)
    | Administrator(username: string, password: string, balance: int,
                    name: string, phoneNumber: string, address: string)
  {
    /** The role code of the object's class. */
    function GetUserType(): (t: int)
      ensures t == CUSTOMER <==> Customer?
      ensures t == ADMINISTRATOR <==> Administrator?
    {
      if Customer? then CUSTOMER else ADMINISTRATOR
    }

    /** Adds to the cached balance and changes nothing else. */
    function AddBalance(addend: int): (u: User)
      ensures u.balance == balance + addend
      ensures u.(balance := balance) == this
    {
      this.(balance := balance + addend)
    }
  }

  /** The user object login builds from a stored row of a known role. */
  function SessionFor(username: string, row: UserRow): (u: User)
    requires row.role == CUSTOMER || row.role == ADMINISTRATOR
    ensures u.GetUserType() == row.role
    ensures u.username == username && u.password == row.password && u.balance == row.balance
    ensures u.name == row.name && u.phoneNumber == row.phoneNumber && u.address == row.address
  {
    if row.role == CUSTOMER then
      Customer(username, row.password, row.balance, row.name, row.phoneNumber, row.address)
    else
      Administrator(username, row.password, row.balance, row.name, row.phoneNumber, row.address)
  }

  /** The credential: the "iss" and "username" keys of the token object. */
  datatype Token = Token(iss: Option<string>, username: Option<string>)

  const ISSUER: string := "Haolin Yang"

  /** The service: the item registry (which holds the store) and the
      session cache from username to user object. */
  datatype Service = Service(registry: ItemManage.Registry, userMap: map<string, User>)

  /** Every session belongs to a stored user and is filed under its name. */
  predicate SessionsStored(s: Service) {
    forall u :: u in s.userMap ==> u in s.registry.db.users && s.userMap[u].username == u
  }

  /** The structural invariant the handlers keep. */
  predicate Valid(s: Service) {
    && Registered(s.registry.db)
    && UniqueIds(s.registry.db.items)
    && ItemManage.CounterCovers(s.registry)
    && SessionsStored(s)
  }

  /** Stored and cached balances all lie in [0, BALANCE_LIMIT]. */
  predicate BalancesInRange(s: Service) {
    && StoredBalancesInRange(s.registry.db)
    && forall u :: u in s.userMap ==> 0 <= s.userMap[u].balance <= BALANCE_LIMIT
  }

  /** Start-up: open the store from its tables and username file, read the
      item counter, no sessions. */
  function Start(users: map<string, UserRow>, items: seq<Item>, fileLines: seq<string>): (s: Service)
    ensures s.userMap == map[]
    ensures s.registry.db.items == items
    ensures (forall u :: u in users ==> u in fileLines) && UniqueIds(items) ==> Valid(s)
  {
    Service(ItemManage.Create(Database.Open(users, items, fileLines)), map[])
  }

  // Reply texts (English renderings of the source's messages).
  const ERR_CHANGE_LIMIT: string := "a single balance change may not exceed 1000000000"
  const ERR_VERIFY: string := "verification failed"
  const ERR_NEGATIVE: string := "balance may not be negative"
  const ERR_BALANCE_CAP: string := "the balance limit is 1000000000"
  const ERR_DST_CAP: string := "balance may not exceed 1000000000"
  const ERR_NO_DST: string := "cannot find the other user "
  const ERR_NO_MODE: string := "missing type key"
  const ERR_NOT_ADMIN_QUERY: string := "only the administrator may view all items"
  const ERR_BAD_MODE: string := "invalid value of the type key"
  const ERR_NAME_LENGTH: string := "the username must be 1 to 10 characters long"
  const ERR_NAME_TAKEN: string := "this username is already registered"
  const ERR_ADMIN_REGISTER: string := "administrator accounts cannot be registered"
  const ERR_ROLE_IN_DB: string := "invalid user type in the database"
  const ERR_LOGIN: string := "wrong username or password"
  const ERR_NOT_CUSTOMER_SEND: string := "only customers may send items"
  const ERR_INFO: string := "item information is incomplete"
  const ERR_NO_RECIPIENT: string := "the recipient does not exist"
  const ERR_RECIPIENT_ROLE: string := "items can only be sent to customers"
  const ERR_CATEGORY: string := "invalid item category"
  const ERR_NOT_CUSTOMER_RECEIVE: string := "only customers may receive items"
  const ERR_NO_ITEM: string := "no item has this id"
  const ERR_NOT_YOURS: string := "this item is not addressed to you"
  const ERR_NOT_ARRIVED: string := "this item has not arrived yet"

  /** The username the token authenticates, or "" when it names no live
      session or was not issued here. */
  function Verify(s: Service, token: Token): (username: string)
    ensures username != "" ==> username in s.userMap
    ensures token.username.Some? && token.username.value in s.userMap && token.iss == Some(ISSUER) ==>
              username == token.username.value
    ensures token.username.None? || token.username.value !in s.userMap || token.iss != Some(ISSUER) ==>
              username == ""
  {
    if token.username.None? || token.username.value !in s.userMap || token.iss.None? || token.iss.value != ISSUER then ""
    else token.username.value
  }

  /** When addBalance changes anything: a bounded change, a live session,
      and a cached balance that stays within [0, BALANCE_LIMIT]. */
  predicate CanAddBalance(s: Service, token: Token, addend: int) {
    && -BALANCE_LIMIT <= addend <= BALANCE_LIMIT
    && Verify(s, token) != ""
    && 0 <= s.userMap[Verify(s, token)].balance + addend <= BALANCE_LIMIT
  }

  /** `after` is `before` with user `u`'s cached balance moved by `addend`
      and its stored balance set to the new cached value; nothing else moved. */
  predicate BalanceWritten(before: Service, after: Service, u: string, addend: int) {
    && u in before.userMap
    && after.registry.total == before.registry.total
    && after.userMap == before.userMap[u := before.userMap[u].AddBalance(addend)]
    && Database.UsersFrame(before.registry.db, after.registry.db, u)
    && (u in before.registry.db.users ==>
          after.registry.db.users[u] == before.registry.db.users[u].(balance := before.userMap[u].balance + addend))
  }

  /** addBalance checks the bounds against the cached balance and writes
      cached + addend to both the store and the cache. */
  function AddBalance(s: Service, token: Token, addend: int): (r: (Service, string))
    ensures addend > BALANCE_LIMIT || addend < -BALANCE_LIMIT ==> r == (s, ERR_CHANGE_LIMIT)
    ensures -BALANCE_LIMIT <= addend <= BALANCE_LIMIT && Verify(s, token) == "" ==> r == (s, ERR_VERIFY)
    ensures r.1 == "" <==> CanAddBalance(s, token, addend)
    ensures r.1 != "" ==> r.0 == s
    ensures r.1 == "" ==> BalanceWritten(s, r.0, Verify(s, token), addend)
    ensures Valid(s) ==> Valid(r.0)
    ensures BalancesInRange(s) ==> BalancesInRange(r.0)
  {
    if addend > BALANCE_LIMIT || addend < -BALANCE_LIMIT then (s, ERR_CHANGE_LIMIT)
    else
      var username := Verify(s, token);
      if username == "" then (s, ERR_VERIFY)
      else if s.userMap[username].balance + addend < 0 then (s, ERR_NEGATIVE)
      else if s.userMap[username].balance + addend > BALANCE_LIMIT then (s, ERR_BALANCE_CAP)
      else
        var (db, _) := Database.ModifyUserBalance(s.registry.db, username, s.userMap[username].balance + addend, true);
        (Service(s.registry.(db := db), s.userMap[username := s.userMap[username].AddBalance(addend)]), "")
  }

  /** When transferBalance succeeds. The destination bounds use the stored
      destination balance (see README: the source adds the amount to the
      destination's name there). */
  predicate CanTransfer(s: Service, token: Token, amount: int, dstUser: string) {
    && -BALANCE_LIMIT < amount < BALANCE_LIMIT
    && dstUser in s.registry.db.users
    && 0 <= s.registry.db.users[dstUser].balance + amount < BALANCE_LIMIT
    && CanAddBalance(s, token, -amount)
  }

  /** The users' side of a completed transfer from `u` to `dst`: `u`'s cache
      is debited, `dst`'s stored balance is its old value plus the amount,
      `u`'s stored balance is its old cached value minus the amount (unless
      `u` is `dst`), no session but `u`'s and no other row changes. */
  predicate TransferDone(before: Service, after: Service, u: string, amount: int, dst: string) {
    var users := before.registry.db.users;
    var users' := after.registry.db.users;
    && u in before.userMap && dst in users
    && after.userMap == before.userMap[u := before.userMap[u].AddBalance(-amount)]
    && users'.Keys == users.Keys
    && after.registry.db.usernameSet == before.registry.db.usernameSet
    && users'[dst] == users[dst].(balance := users[dst].balance + amount)
    && (u != dst && u in users ==> users'[u] == users[u].(balance := before.userMap[u].balance - amount))
    && forall x :: x in users && x != u && x != dst ==> users'[x] == users[x]
  }

  /** transferBalance debits the token's user through addBalance, then sets
      the destination's stored balance to the value read before the debit
      plus the amount. The destination's session is not touched. */
  function TransferBalance(s: Service, token: Token, amount: int, dstUser: string): (r: (Service, string))
    requires NameRegistered(s.registry.db, dstUser)
    ensures amount >= BALANCE_LIMIT || amount <= -BALANCE_LIMIT ==> r == (s, ERR_CHANGE_LIMIT)
    ensures -BALANCE_LIMIT < amount < BALANCE_LIMIT && dstUser !in s.registry.db.users ==>
              r == (s, ERR_NO_DST + dstUser)
    ensures r.1 == "" <==> CanTransfer(s, token, amount, dstUser)
    ensures r.1 != "" ==> r.0 == s
    ensures r.1 == "" ==> TransferDone(s, r.0, Verify(s, token), amount, dstUser)
    ensures r.1 == "" ==> r.0.registry.total == s.registry.total && r.0.registry.db.items == s.registry.db.items
    ensures r.1 == "" ==>
              var u := Verify(s, token);
              var users := s.registry.db.users;
              u != dstUser && u in users && s.userMap[u].balance == users[u].balance ==>
                r.0.registry.db.users[u].balance + r.0.registry.db.users[dstUser].balance
                == users[u].balance + users[dstUser].balance
    ensures Valid(s) ==> Valid(r.0)
  {
    if amount >= BALANCE_LIMIT || amount <= -BALANCE_LIMIT then (s, ERR_CHANGE_LIMIT)
    else if !Database.QueryUserByName(s.registry.db, dstUser) then (s, ERR_NO_DST + dstUser)
    else
      var dstBalance := Database.QueryBalanceByName(s.registry.db, dstUser);
      if dstBalance + amount >= BALANCE_LIMIT then (s, ERR_DST_CAP)
      else if dstBalance + amount < 0 then (s, ERR_NEGATIVE)
      else
        var (debited, ret) := AddBalance(s, token, -amount);
        if ret != "" then (debited, ret)
        else
          var (db, _) := Database.ModifyUserBalance(debited.registry.db, dstUser, dstBalance + amount, true);
          (debited.(registry := debited.registry.(db := db)), "")
  }

  /** The JSON filter of queryItem; a key that is absent is None. */
  datatype QueryRequest = QueryRequest(
    mode: Option<int>, id: Option<int>,
    sendingYear: Option<int>, sendingMonth: Option<int>, sendingDay: Option<int>,
    receivingYear: Option<int>, receivingMonth: Option<int>, receivingDay: Option<int>,
    srcName: Option<string>, dstName: Option<string>)

  function IntOr(o: Option<int>, default: int): int {
    match o
    case Some(v) => v
    case None => default
  }

  function TextOr(o: Option<string>): string {
    match o
    case Some(v) => v
    case None => ""
  }

  /** The request's criteria; an absent key becomes -1 or "". */
  function RequestFilter(q: QueryRequest): (f: Database.Filter)
    ensures q.id.None? ==> f.id == -1
    ensures q.sendingYear.None? && q.sendingMonth.None? && q.sendingDay.None? ==> f.sendingTime == NO_TIME
    ensures q.receivingYear.None? && q.receivingMonth.None? && q.receivingDay.None? ==> f.receivingTime == NO_TIME
    ensures q.srcName.None? ==> f.srcName == ""
    ensures q.dstName.None? ==> f.dstName == ""
    ensures q.id.Some? ==> f.id == q.id.value
    ensures q.sendingYear.Some? ==> f.sendingTime.year == q.sendingYear.value
    ensures q.sendingMonth.Some? ==> f.sendingTime.month == q.sendingMonth.value
    ensures q.sendingDay.Some? ==> f.sendingTime.day == q.sendingDay.value
    ensures q.receivingYear.Some? ==> f.receivingTime.year == q.receivingYear.value
    ensures q.receivingMonth.Some? ==> f.receivingTime.month == q.receivingMonth.value
    ensures q.receivingDay.Some? ==> f.receivingTime.day == q.receivingDay.value
    ensures q.srcName.Some? ==> f.srcName == q.srcName.value
    ensures q.dstName.Some? ==> f.dstName == q.dstName.value
    ensures q.sendingYear.None? ==> f.sendingTime.year == -1
    ensures q.sendingMonth.None? ==> f.sendingTime.month == -1
    ensures q.sendingDay.None? ==> f.sendingTime.day == -1
    ensures q.receivingYear.None? ==> f.receivingTime.year == -1
    ensures q.receivingMonth.None? ==> f.receivingTime.month == -1
    ensures q.receivingDay.None? ==> f.receivingTime.day == -1
  {
    Database.Filter(
      IntOr(q.id, -1),
      Time(IntOr(q.sendingYear, -1), IntOr(q.sendingMonth, -1), IntOr(q.sendingDay, -1)),
      Time(IntOr(q.receivingYear, -1), IntOr(q.receivingMonth, -1), IntOr(q.receivingDay, -1)),
      TextOr(q.srcName), TextOr(q.dstName))
  }

  /** Mode 1 replaces the sender criterion by the caller, mode 2 the
      recipient criterion; mode 0 keeps the request's criteria. */
  function ModeFilter(q: QueryRequest, caller: string): Database.Filter {
    if q.mode == Some(1) then RequestFilter(q).(srcName := caller)
    else if q.mode == Some(2) then RequestFilter(q).(dstName := caller)
    else RequestFilter(q)
  }

  /** queryItem. A failed verification is not checked: the caller becomes
      "", which in modes 1 and 2 drops the forced criterion. In mode 0 the
      source reads the caller's session without checking it exists. */
  function QueryItem(s: Service, token: Token, q: QueryRequest): (r: (string, seq<Item>))
    requires q.mode == Some(0) ==> Verify(s, token) in s.userMap
    ensures q.mode.None? ==> r == (ERR_NO_MODE, [])
    ensures q.mode.Some? && !(0 <= q.mode.value <= 2) ==> r == (ERR_BAD_MODE, [])
    ensures r.0 == "" <==>
              q.mode.Some? && 0 <= q.mode.value <= 2 &&
              (q.mode.value == 0 ==> s.userMap[Verify(s, token)].GetUserType() == ADMINISTRATOR)
    ensures r.0 != "" ==> r.1 == []
    ensures r.0 == "" ==>
              forall x :: x in r.1 <==> x in s.registry.db.items && Database.Matches(ModeFilter(q, Verify(s, token)), x)
    ensures r.0 == "" ==>
              forall x :: multiset(r.1)[x] ==
                if Database.Matches(ModeFilter(q, Verify(s, token)), x) then multiset(s.registry.db.items)[x] else 0
    ensures r.0 == "" && q.mode == Some(1) && Verify(s, token) != "" ==>
              forall x :: x in r.1 ==> x.srcName == Verify(s, token)
    ensures r.0 == "" && q.mode == Some(2) && Verify(s, token) != "" ==>
              forall x :: x in r.1 ==> x.dstName == Verify(s, token)
  {
    if q.mode.None? then (ERR_NO_MODE, [])
    else
      var username := Verify(s, token);
      if q.mode.value == 0 && s.userMap[username].GetUserType() != ADMINISTRATOR then (ERR_NOT_ADMIN_QUERY, [])
      else
        var f := RequestFilter(q);
        if q.mode.value == 0 then ("", ItemManage.QueryByFilter(s.registry, [], f).0)
        else if q.mode.value == 1 then ("", ItemManage.QueryByFilter(s.registry, [], f.(srcName := username)).0)
        else if q.mode.value == 2 then ("", ItemManage.QueryByFilter(s.registry, [], f.(dstName := username)).0)
        else (ERR_BAD_MODE, [])
  }

  /** registerUser: the new row has balance 0 and the requested role, which
      may be any role but ADMINISTRATOR. */
  function RegisterUser(s: Service, username: string, password: string, role: int,
                        name: string, phoneNumber: string, address: string): (r: (Service, string))
    requires NameRegistered(s.registry.db, username)
    ensures |username| == 0 || |username| > 10 ==> r == (s, ERR_NAME_LENGTH)
    ensures r.1 == "" <==> 1 <= |username| <= 10 && username !in s.registry.db.users && role != ADMINISTRATOR
    ensures r.1 != "" ==> r.0 == s
    ensures r.1 == "" ==>
              && r.0.userMap == s.userMap
              && r.0.registry.total == s.registry.total
              && r.0.registry.db.items == s.registry.db.items
              && r.0.registry.db.users == s.registry.db.users[username := UserRow(password, role, 0, name, phoneNumber, address)]
              && r.0.registry.db.usernameSet == s.registry.db.usernameSet + {username}
    ensures Valid(s) ==> Valid(r.0)
    ensures BalancesInRange(s) ==> BalancesInRange(r.0)
  {
    if |username| == 0 || |username| > 10 then (s, ERR_NAME_LENGTH)
    else if Database.QueryUserByName(s.registry.db, username) then (s, ERR_NAME_TAKEN)
    else if role == ADMINISTRATOR then (s, ERR_ADMIN_REGISTER)
    else
      var db := Database.InsertUser(s.registry.db, username, UserRow(password, role, 0, name, phoneNumber, address), true);
      (s.(registry := s.registry.(db := db)), "")
  }

  /** A stored row with exactly this password and a known role. */
  predicate CanLogin(db: Db, username: string, password: string) {
    && username in db.users
    && db.users[username].password == password
    && (db.users[username].role == CUSTOMER || db.users[username].role == ADMINISTRATOR)
  }

  /** login: creates a session only when none exists (an existing one is
      reused as it is) and writes the issuer and username into the token. */
  function Login(s: Service, username: string, password: string, token: Token): (r: (Service, string, Token))
    ensures r.1 == "" <==> CanLogin(s.registry.db, username, password)
    ensures r.1 != "" ==> r.0 == s && r.2 == token
    ensures (username in s.registry.db.users && s.registry.db.users[username].password == password &&
             !CanLogin(s.registry.db, username, password)) ==> r.1 == ERR_ROLE_IN_DB
    ensures !(username in s.registry.db.users && s.registry.db.users[username].password == password) ==>
              r.1 == ERR_LOGIN
    ensures r.1 == "" ==>
              && r.2 == Token(Some(ISSUER), Some(username))
              && r.0.registry == s.registry
              && Verify(r.0, r.2) == username
    ensures r.1 == "" && username in s.userMap ==> r.0.userMap == s.userMap
    ensures r.1 == "" && username !in s.userMap ==>
              r.0.userMap == s.userMap[username := SessionFor(username, s.registry.db.users[username])]
    ensures Valid(s) ==> Valid(r.0)
    ensures BalancesInRange(s) ==> BalancesInRange(r.0)
  {
    var row := Database.QueryUserRow(s.registry.db, username);
    if row.Some? && row.value.password == password then
      if row.value.role == CUSTOMER || row.value.role == ADMINISTRATOR then
        var userMap := if username in s.userMap then s.userMap else s.userMap[username := SessionFor(username, row.value)];
        (s.(userMap := userMap), "", Token(Some(ISSUER), Some(username)))
      else
        (s, ERR_ROLE_IN_DB, token)
    else
      (s, ERR_LOGIN, token)
  }

  /** logout drops the session, which revokes every token naming it. */
  function Logout(s: Service, token: Token): (r: (Service, string))
    ensures r.1 == "" <==> Verify(s, token) != ""
    ensures r.1 != "" ==> r == (s, ERR_VERIFY)
    ensures r.1 == "" ==>
              && r.0.registry == s.registry
              && r.0.userMap == s.userMap - {Verify(s, token)}
              && Verify(r.0, token) == ""
    ensures Valid(s) ==> Valid(r.0)
    ensures BalancesInRange(s) ==> BalancesInRange(r.0)
  {
    var username := Verify(s, token);
    if username == "" then (s, ERR_VERIFY)
    else (s.(userMap := s.userMap - {username}), "")
  }

  /** changePassword writes the stored password only; the session keeps
      its copy. */
  function ChangePassword(s: Service, token: Token, newPassword: string): (r: (Service, string))
    ensures r.1 == "" <==> Verify(s, token) != ""
    ensures r.1 != "" ==> r == (s, ERR_VERIFY)
    ensures r.1 == "" ==>
              var u := Verify(s, token);
              && r.0.userMap == s.userMap
              && r.0.registry.total == s.registry.total
              && Database.UsersFrame(s.registry.db, r.0.registry.db, u)
              && (u in s.registry.db.users ==>
                    r.0.registry.db.users[u] == s.registry.db.users[u].(password := newPassword))
    ensures Valid(s) ==> Valid(r.0)
    ensures BalancesInRange(s) ==> BalancesInRange(r.0)
  {
    var username := Verify(s, token);
    if username == "" then (s, ERR_VERIFY)
    else
      var (db, _) := Database.ModifyUserPassword(s.registry.db, username, newPassword, true);
      (s.(registry := s.registry.(db := db)), "")
  }

  /** The JSON object of sendItem; a key that is absent is None. */
  datatype SendRequest = SendRequest(dstName: Option<string>, category: Option<int>,
                                     amount: Option<int>, description: Option<string>)

  /** The category codes and their unit prices. */
  datatype Tariff = Tariff(fragile: int, book: int, normal: int,
                           fragilePrice: int, bookPrice: int, normalPrice: int)

  /** amount times the unit price of the category, first matching case first. */
  function Cost(tariff: Tariff, category: int, amount: int): (c: Option<int>)
    ensures c.Some? <==> category == tariff.fragile || category == tariff.book || category == tariff.normal
    ensures category == tariff.fragile ==> c == Some(amount * tariff.fragilePrice)
    ensures category != tariff.fragile && category == tariff.book ==> c == Some(amount * tariff.bookPrice)
    ensures category != tariff.fragile && category != tariff.book && category == tariff.normal ==>
              c == Some(amount * tariff.normalPrice)
  {
    if category == tariff.fragile then Some(amount * tariff.fragilePrice)
    else if category == tariff.book then Some(amount * tariff.bookPrice)
    else if category == tariff.normal then Some(amount * tariff.normalPrice)
    else None
  }

  /** The checks sendItem makes before charging the caller. */
  predicate SendChecksPass(s: Service, token: Token, info: SendRequest, tariff: Tariff) {
    var u := Verify(s, token);
    && u != ""
    && s.userMap[u].GetUserType() == CUSTOMER
    && info.dstName.Some? && info.category.Some? && info.amount.Some? && info.description.Some?
    && info.dstName.value in s.registry.db.users
    && s.registry.db.users[info.dstName.value].role == CUSTOMER
    && Cost(tariff, info.category.value, info.amount.value).Some?
  }

  /** When sendItem succeeds: the checks pass and the caller can pay the
      administrator the cost. */
  predicate CanSend(s: Service, token: Token, info: SendRequest, tariff: Tariff) {
    && SendChecksPass(s, token, info, tariff)
    && CanTransfer(s, token, Cost(tariff, info.category.value, info.amount.value).value, Database.ADMIN_USERNAME)
  }

  /** sendItem: charges the cost to "ADMINISTRATOR", adds one pending item
      sent today by the caller, and replies with the cost as text. */
  function SendItem(s: Service, token: Token, info: SendRequest, tariff: Tariff, today: Time): (r: (Service, string))
    requires NameRegistered(s.registry.db, Database.ADMIN_USERNAME)
    requires info.dstName.Some? ==> NameRegistered(s.registry.db, info.dstName.value)
    ensures !CanSend(s, token, info, tariff) ==> r.0 == s && r.1 != ""
    ensures CanSend(s, token, info, tariff) ==>
              var u := Verify(s, token);
              var cost := Cost(tariff, info.category.value, info.amount.value).value;
              && r.1 == NumberText.Number(cost)
              && TransferDone(s, r.0, u, cost, Database.ADMIN_USERNAME)
              && r.0.registry.total == s.registry.total + 1
              && (ItemManage.CounterCovers(s.registry) ==>
                    r.0.registry.db.items == s.registry.db.items +
                      [Item(s.registry.total + 1, cost, PENDING_RECEIVING, today, NO_TIME,
                            u, info.dstName.value, info.description.value)])
    ensures Valid(s) ==> Valid(r.0)
  {
    var username := Verify(s, token);
    if username == "" then (s, ERR_VERIFY)
    else if s.userMap[username].GetUserType() != CUSTOMER then (s, ERR_NOT_CUSTOMER_SEND)
    else if info.dstName.None? || info.category.None? || info.amount.None? || info.description.None? then (s, ERR_INFO)
    else if !Database.QueryUserByName(s.registry.db, info.dstName.value) then (s, ERR_NO_RECIPIENT)
    else if Database.QueryUserRow(s.registry.db, info.dstName.value).value.role != CUSTOMER then (s, ERR_RECIPIENT_ROLE)
    else
      var cost := Cost(tariff, info.category.value, info.amount.value);
      if cost.None? then (s, ERR_CATEGORY)
      else
        var (paid, ret) := TransferBalance(s, token, cost.value, Database.ADMIN_USERNAME);
        if ret != "" then (paid, ret)
        else
          var (registry, _) := ItemManage.InsertItem(paid.registry, cost.value, PENDING_RECEIVING, today, NO_TIME,
                                                     username, info.dstName.value, info.description.value);
          (paid.(registry := registry), NumberText.Number(cost.value))
  }

  /** The JSON object of receiveItem. */
  datatype ReceiveRequest = ReceiveRequest(id: Option<int>)

  /** When receiveItem succeeds. The item's current state is not consulted. */
  predicate CanReceive(s: Service, token: Token, info: ReceiveRequest, isDue: Time -> bool) {
    var u := Verify(s, token);
    && u != ""
    && s.userMap[u].GetUserType() == CUSTOMER
    && info.id.Some?
    && ItemManage.QueryById(s.registry, info.id.value).Some?
    && ItemManage.QueryById(s.registry, info.id.value).value.dstName == u
    && isDue(ItemManage.QueryById(s.registry, info.id.value).value.sendingTime)
  }

  /** receiveItem: marks the rows with that id RECEIVED today. `isDue` is
      the clock's verdict on a sending date. */
  function ReceiveItem(s: Service, token: Token, info: ReceiveRequest, today: Time, isDue: Time -> bool): (r: (Service, string))
    ensures r.1 == "" <==> CanReceive(s, token, info, isDue)
    ensures Valid(s) && info.id.Some? && info.id.value != -1 ==>
              (r.1 == "" <==>
                 var u := Verify(s, token);
                 && u != ""
                 && s.userMap[u].GetUserType() == CUSTOMER
                 && exists i :: 0 <= i < |s.registry.db.items| && s.registry.db.items[i].id == info.id.value &&
                                s.registry.db.items[i].dstName == u && isDue(s.registry.db.items[i].sendingTime))
    ensures r.1 != "" ==> r.0 == s
    ensures r.1 == "" ==>
              && r.0.userMap == s.userMap
              && r.0.registry.total == s.registry.total
              && r.0.registry.db.users == s.registry.db.users
              && r.0.registry.db.usernameSet == s.registry.db.usernameSet
              && |r.0.registry.db.items| == |s.registry.db.items|
              && forall i :: 0 <= i < |s.registry.db.items| ==>
                   r.0.registry.db.items[i] ==
                     if s.registry.db.items[i].id == info.id.value
                     then s.registry.db.items[i].(state := RECEIVED, receivingTime := today)
                     else s.registry.db.items[i]
    ensures Valid(s) ==> Valid(r.0)
    ensures BalancesInRange(s) ==> BalancesInRange(r.0)
  {
    var username := Verify(s, token);
    if username == "" then (s, ERR_VERIFY)
    else if s.userMap[username].GetUserType() != CUSTOMER then (s, ERR_NOT_CUSTOMER_RECEIVE)
    else if info.id.None? then (s, ERR_INFO)
    else
      var found := ItemManage.QueryById(s.registry, info.id.value);
      if found.None? then (s, ERR_NO_ITEM)
      else if found.value.dstName != username then (s, ERR_NOT_YOURS)
      else if !isDue(found.value.sendingTime) then (s, ERR_NOT_ARRIVED)
      else
        var (marked, _) := ItemManage.ModifyState(s.registry, info.id.value, RECEIVED);
        var (timed, _) := ItemManage.ModifyReceivingTime(marked, info.id.value, today);
        (s.(registry := timed), "")
  }
}
