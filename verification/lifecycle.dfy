/** Properties that relate several operations: sessions across login,
    logout and password changes, the item counter across inserts, and the
    receive step repeated. */
module Lifecycle {
  import opened Records
  import Database
  import ItemManage
  import opened UserManage

  /** A customer who has just registered can log in with the password given,
      holds a CUSTOMER session with balance 0, and the token verifies. */
  lemma RegisterThenLogin(s: Service, username: string, password: string,
                          name: string, phoneNumber: string, address: string, token: Token)
    requires Valid(s)
    requires RegisterUser(s, username, password, CUSTOMER, name, phoneNumber, address).1 == ""
    ensures var s1 := RegisterUser(s, username, password, CUSTOMER, name, phoneNumber, address).0;
            var r := Login(s1, username, password, token);
            && r.1 == ""
            && Verify(r.0, r.2) == username
            && r.0.userMap[username].GetUserType() == CUSTOMER
            && r.0.userMap[username].balance == 0
  {
  }

  /** Registration accepts any role but ADMINISTRATOR; with a role other than
      CUSTOMER the account can never log in. */
  lemma UnknownRoleNeverLogsIn(s: Service, username: string, password: string, role: int,
                               name: string, phoneNumber: string, address: string,
                               anyPassword: string, token: Token)
    requires Valid(s)
    requires role != CUSTOMER && role != ADMINISTRATOR
    requires 1 <= |username| <= 10 && username !in s.registry.db.users
    ensures RegisterUser(s, username, password, role, name, phoneNumber, address).1 == ""
    ensures var s1 := RegisterUser(s, username, password, role, name, phoneNumber, address).0;
            Login(s1, username, anyPassword, token).1 != ""
  {
  }

  /** Logging out with the token login returned succeeds and revokes it. */
  lemma LoginThenLogout(s: Service, username: string, password: string, token: Token)
    requires username != ""
    requires Login(s, username, password, token).1 == ""
    ensures var r := Login(s, username, password, token);
            var out := Logout(r.0, r.2);
            && out.1 == ""
            && username !in out.0.userMap
            && Verify(out.0, r.2) == ""
  {
  }

  /** After a password change the new password logs in and a different old
      one no longer does. */
  lemma ChangePasswordThenLogin(s: Service, token: Token, newPassword: string, oldPassword: string, t: Token)
    requires Valid(s)
    requires ChangePassword(s, token, newPassword).1 == ""
    requires var u := Verify(s, token);
             s.registry.db.users[u].role == CUSTOMER || s.registry.db.users[u].role == ADMINISTRATOR
    ensures var u := Verify(s, token);
            var s1 := ChangePassword(s, token, newPassword).0;
            && Login(s1, u, newPassword, t).1 == ""
            && (oldPassword != newPassword ==> Login(s1, u, oldPassword, t).1 == ERR_LOGIN)
  {
  }

  /** Adding and then removing the same amount restores the state, when the
      cached balance agreed with the stored one and was in range. */
  lemma AddBalanceUndo(s: Service, token: Token, addend: int)
    requires AddBalance(s, token, addend).1 == ""
    requires var u := Verify(s, token);
             && u in s.registry.db.users && s.userMap[u].balance == s.registry.db.users[u].balance
             && 0 <= s.userMap[u].balance <= BALANCE_LIMIT
    ensures var s1 := AddBalance(s, token, addend).0;
            AddBalance(s1, token, -addend) == (s, "")
  {
    var u := Verify(s, token);
    var s1 := AddBalance(s, token, addend).0;
    assert Verify(s1, token) == u;
    var s2 := AddBalance(s1, token, -addend).0;
    var before := s.userMap[u];
    var middle := before.AddBalance(addend);
    var after := middle.AddBalance(-addend);
    assert after == before by {
      assert middle.(balance := before.balance) == before;
      assert after.(balance := middle.balance) == middle;
    }
    assert s1.userMap[u] == middle;
    assert CanAddBalance(s1, token, -addend);
    assert s2.userMap[u] == after;
    assert s2.userMap == s.userMap;
    assert s2.registry.db.users[u] == s.registry.db.users[u];
    assert s2.registry.db.users == s.registry.db.users;
    assert s2.registry.db == s.registry.db;
  }

  /** The id insertItem returns finds exactly the row it stored. */
  lemma InsertThenQueryById(reg: ItemManage.Registry, cost: int, state: int, sendingTime: Time,
                            receivingTime: Time, srcName: string, dstName: string, description: string)
    requires ItemManage.CounterCovers(reg) && UniqueIds(reg.db.items)
    requires reg.total >= 0
    ensures var r := ItemManage.InsertItem(reg, cost, state, sendingTime, receivingTime, srcName, dstName, description);
            ItemManage.QueryById(r.0, r.1) ==
              Some(Item(r.1, cost, state, sendingTime, receivingTime, srcName, dstName, description))
  {
    var r := ItemManage.InsertItem(reg, cost, state, sendingTime, receivingTime, srcName, dstName, description);
    var items := r.0.db.items;
    assert items[|items| - 1].id == r.1;
  }

  /** Successive inserts hand out consecutive, unused ids. */
  lemma SuccessiveIdsAreFresh(reg: ItemManage.Registry, a: Item, b: Item)
    requires ItemManage.CounterCovers(reg) && UniqueIds(reg.db.items)
    ensures var r1 := ItemManage.InsertItem(reg, a.cost, a.state, a.sendingTime, a.receivingTime,
                                            a.srcName, a.dstName, a.description);
            var r2 := ItemManage.InsertItem(r1.0, b.cost, b.state, b.sendingTime, b.receivingTime,
                                            b.srcName, b.dstName, b.description);
            && r1.1 < r2.1
            && !HasId(reg.db.items, r1.1) && !HasId(reg.db.items, r2.1)
            && |r2.0.db.items| == |reg.db.items| + 2
            && UniqueIds(r2.0.db.items)
  {
  }

  /** After a delete by a real id, that id is no longer found. */
  lemma DeleteThenQueryById(reg: ItemManage.Registry, id: int)
    requires id != -1
    ensures ItemManage.QueryById(ItemManage.DeleteItem(reg, id).0, id).None?
  {
  }

  /** One step of the scan: a matching head row comes first, a row that
      does not match is skipped. */
  lemma SelectStep(items: seq<Item>, f: Database.Filter)
    requires items != []
    ensures Database.Matches(f, items[0]) ==>
              Database.Select(items, f) != [] && Database.Select(items, f)[0] == items[0]
    ensures !Database.Matches(f, items[0]) ==> Database.Select(items, f) == Database.Select(items[1..], f)
  {
  }

  /** Two tables whose rows agree one by one on the criteria: both scans
      find something or neither does, and their first results sit at the
      same position `i`. */
  lemma {:induction false} SelectCorresponds(a: seq<Item>, b: seq<Item>, f: Database.Filter) returns (i: nat)
    requires |a| == |b|
    requires forall k :: 0 <= k < |a| ==> Database.Matches(f, a[k]) == Database.Matches(f, b[k])
    ensures Database.Select(a, f) == [] <==> Database.Select(b, f) == []
    ensures Database.Select(a, f) != [] ==>
              i < |a| && Database.Select(a, f)[0] == a[i] && Database.Select(b, f)[0] == b[i]
  {
    if a == [] {
      return 0;
    }
    SelectStep(a, f);
    SelectStep(b, f);
    if Database.Matches(f, a[0]) {
      return 0;
    }
    var a', b' := a[1..], b[1..];
    forall k | 0 <= k < |a'| ensures Database.Matches(f, a'[k]) == Database.Matches(f, b'[k]) {
      assert a'[k] == a[k + 1] && b'[k] == b[k + 1];
    }
    var j := SelectCorresponds(a', b', f);
    if Database.Select(a', f) != [] {
      assert a'[j] == a[j + 1] && b'[j] == b[j + 1];
    }
    return j + 1;
  }

  /** receiveItem never reads the item's state, so a receive that succeeded
      succeeds again with the same request. */
  lemma ReceiveIsRepeatable(s: Service, token: Token, info: ReceiveRequest, today: Time, isDue: Time -> bool)
    requires ReceiveItem(s, token, info, today, isDue).1 == ""
    ensures var s1 := ReceiveItem(s, token, info, today, isDue).0;
            ReceiveItem(s1, token, info, today, isDue).1 == ""
  {
    var s1 := ReceiveItem(s, token, info, today, isDue).0;
    var id := info.id.value;
    var a := s.registry.db.items;
    var b := s1.registry.db.items;
    var f := Database.IdFilter(id);
    assert Verify(s1, token) == Verify(s, token);
    forall i | 0 <= i < |a| ensures Database.Matches(f, a[i]) == Database.Matches(f, b[i]) {
      assert b[i].id == a[i].id;
    }
    var i := SelectCorresponds(a, b, f);
    assert b[i].dstName == a[i].dstName && b[i].sendingTime == a[i].sendingTime;
  }

  /** The id -1 is the "no constraint" sentinel: when no row carries it, a
      receive of item -1 by the recipient of the first row (once due) is
      reported as a success, yet changes nothing. */
  lemma ReceiveOfSentinelIdChangesNothing(s: Service, token: Token, today: Time, isDue: Time -> bool)
    requires !HasId(s.registry.db.items, -1)
    requires ReceiveItem(s, token, ReceiveRequest(Some(-1)), today, isDue).1 == ""
    ensures ReceiveItem(s, token, ReceiveRequest(Some(-1)), today, isDue).0 == s
    ensures s.registry.db.items != [] && s.registry.db.items[0].dstName == Verify(s, token)
  {
  }

  /** queryItem does not stop on a failed verification: in mode 1 the
      caller becomes "", which drops the sender criterion, so every row
      meeting the remaining criteria is returned. */
  lemma UnverifiedSentQuerySeesEveryone(s: Service, token: Token, q: QueryRequest)
    requires q.mode == Some(1) && Verify(s, token) == ""
    ensures QueryItem(s, token, q).0 == ""
    ensures forall x :: x in s.registry.db.items && Database.Matches(RequestFilter(q).(srcName := ""), x) ==>
              x in QueryItem(s, token, q).1
  {
  }

  /** A fresh start on well-formed tables gives a valid service, and the
      first item sent into an empty table gets id 1. */
  lemma FirstIdIsOne(users: map<string, UserRow>, fileLines: seq<string>, item: Item)
    ensures var s := Start(users, [], fileLines);
            ItemManage.InsertItem(s.registry, item.cost, item.state, item.sendingTime, item.receivingTime,
                                  item.srcName, item.dstName, item.description).1 == 1
  {
  }
}
