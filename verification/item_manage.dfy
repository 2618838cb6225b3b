/** The item registry: the id counter and the item queries, over the store.

    Above the store every SQL statement is taken to run, so the store's
    `executes` flag is `true` here. */
module ItemManage {
  import opened Records
  import Database

  /** The registry: the store it works on and `total`, the largest id it
      has allocated. */
  datatype Registry = Registry(db: Db, total: int)

  /** Every stored id is at most the counter, so the next id is unused. */
  predicate CounterCovers(reg: Registry) {
    forall i :: 0 <= i < |reg.db.items| ==> reg.db.items[i].id <= reg.total
  }

  /** The constructor reads the largest stored id, or 0 for an empty table. */
  function Create(db: Db): (reg: Registry)
    ensures reg.db == db
    ensures db.items == [] ==> reg.total == 0
    ensures db.items != [] ==> HasId(db.items, reg.total)
    ensures CounterCovers(reg)
  {
    Registry(db, Database.GetDBMaxId(db, true))
  }

  /** insertItem pre-increments the counter, stores the row under the new
      value and returns it. */
  function InsertItem(reg: Registry, cost: int, state: int, sendingTime: Time, receivingTime: Time,
                      srcName: string, dstName: string, description: string): (r: (Registry, int))
    ensures r.1 == reg.total + 1 && r.0.total == r.1
    ensures r.0.db.users == reg.db.users && r.0.db.usernameSet == reg.db.usernameSet
    ensures CounterCovers(reg) ==> !HasId(reg.db.items, r.1)
    ensures CounterCovers(reg) ==>
              r.0.db.items == reg.db.items + [Item(r.1, cost, state, sendingTime, receivingTime, srcName, dstName, description)]
    ensures CounterCovers(reg) ==> CounterCovers(r.0)
    ensures UniqueIds(reg.db.items) ==> UniqueIds(r.0.db.items)
  {
    var id := reg.total + 1;
    var db := Database.InsertItem(reg.db, Item(id, cost, state, sendingTime, receivingTime, srcName, dstName, description), true);
    (Registry(db, id), id)
  }

  /** Every criterion at its sentinel: the whole table, in order. */
  function QueryAll(reg: Registry, result: seq<Item>): (r: (seq<Item>, int))
    ensures r.0 == result + reg.db.items
    ensures r.1 == |reg.db.items|
  {
    Database.SelectNoFilter(reg.db.items);
    Database.QueryItemByFilter(reg.db, result, Database.NO_FILTER, true)
  }

  /** Forwards to the store's filtered query: `result` is kept as a prefix
      and exactly the stored rows meeting the criteria follow it. */
  function QueryByFilter(reg: Registry, result: seq<Item>, f: Database.Filter): (r: (seq<Item>, int))
    ensures r == Database.QueryItemByFilter(reg.db, result, f, true)
    ensures 0 <= r.1 && |r.0| == |result| + r.1 && r.0[..|result|] == result
    ensures forall x :: x in r.0[|result|..] <==> x in reg.db.items && Database.Matches(f, x)
    ensures forall x :: multiset(r.0[|result|..])[x] == if Database.Matches(f, x) then multiset(reg.db.items)[x] else 0
  {
    Database.QueryItemByFilter(reg.db, result, f, true)
  }

  /** queryById: the first row of a query by id, if any. The id -1 is the
      "no constraint" sentinel, so it yields the first row of the table. */
  function QueryById(reg: Registry, id: int): (r: Option<Item>)
    ensures id != -1 ==> (r.Some? <==> HasId(reg.db.items, id))
    ensures id != -1 && r.Some? ==> r.value in reg.db.items && r.value.id == id
    ensures id != -1 && UniqueIds(reg.db.items) ==>
              forall i :: 0 <= i < |reg.db.items| && reg.db.items[i].id == id ==> r == Some(reg.db.items[i])
    ensures id == -1 ==> (r.Some? <==> reg.db.items != [])
    ensures id == -1 && r.Some? ==> r.value == reg.db.items[0]
    ensures r.Some? <==> Database.Select(reg.db.items, Database.IdFilter(id)) != []
    ensures r.Some? ==> r.value == Database.Select(reg.db.items, Database.IdFilter(id))[0]
  {
    var (found, cnt) := Database.QueryItemByFilter(reg.db, [], Database.IdFilter(id), true);
    assert found == Database.Select(reg.db.items, Database.IdFilter(id));
    assert id == -1 ==> found == reg.db.items by {
      Database.SelectNoFilter(reg.db.items);
    }
    assert id != -1 && HasId(reg.db.items, id) ==> cnt != 0 by {
      if id != -1 && HasId(reg.db.items, id) {
        var k :| 0 <= k < |reg.db.items| && reg.db.items[k].id == id;
        assert reg.db.items[k] in reg.db.items;
      }
    }
    if cnt != 0 then
      assert found[0] in found;
      Some(found[0])
    else
      None
  }

  /** Forwards to the store; the counter is untouched. */
  function ModifyState(reg: Registry, id: int, state: int): (r: (Registry, bool))
    ensures (r.0.db, r.1) == Database.ModifyItemState(reg.db, id, state, true)
    ensures r.0.total == reg.total
    ensures CounterCovers(reg) ==> CounterCovers(r.0)
    ensures UniqueIds(reg.db.items) ==> UniqueIds(r.0.db.items)
  {
    var (db, ok) := Database.ModifyItemState(reg.db, id, state, true);
    (reg.(db := db), ok)
  }

  /** Forwards to the store; the counter is untouched. */
  function ModifyReceivingTime(reg: Registry, id: int, receivingTime: Time): (r: (Registry, bool))
    ensures (r.0.db, r.1) == Database.ModifyItemReceivingTime(reg.db, id, receivingTime, true)
    ensures r.0.total == reg.total
    ensures CounterCovers(reg) ==> CounterCovers(r.0)
    ensures UniqueIds(reg.db.items) ==> UniqueIds(r.0.db.items)
  {
    var (db, ok) := Database.ModifyItemReceivingTime(reg.db, id, receivingTime, true);
    (reg.(db := db), ok)
  }

  /** Forwards to the store; the counter is untouched, so a deleted id is
      never handed out again. */
  function DeleteItem(reg: Registry, id: int): (r: (Registry, bool))
    ensures (r.0.db, r.1) == Database.DeleteItem(reg.db, id, true)
    ensures r.0.total == reg.total
    ensures CounterCovers(reg) ==> CounterCovers(r.0)
    ensures UniqueIds(reg.db.items) ==> UniqueIds(r.0.db.items)
  {
    var (db, ok) := Database.DeleteItem(reg.db, id, true);
    assert forall i :: 0 <= i < |db.items| ==> db.items[i] in reg.db.items by {
      forall i | 0 <= i < |db.items| ensures db.items[i] in reg.db.items {
        assert db.items[i] in db.items;
      }
    }
    (reg.(db := db), ok)
  }
}
