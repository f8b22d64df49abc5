/** The catalog store: the `gb_videos` table as a map from `identifier` (its unique key)
    to the row, and the batch insert that fills it. */
module Db {
  import opened Common
  import Archive

  /** The inserted columns of a `gb_videos` row. */
  datatype Row = Row(
    date: Option<string>,
    description: Option<string>,
    title: string,
    itemSize: Option<i64>,
    identifier: string,
    externalIdentifier: Option<string>,
    collections: Option<seq<string>>,
    creator: Option<string>)

  type Store = map<string, Row>

  const TwoTo63: int := 0x8000_0000_0000_0000
  const TwoTo64: int := 0x1_0000_0000_0000_0000

  /** `as u64` on an `i64`: the same 64 bits read as unsigned. */
  function ToU64(v: i64): (r: u64)
    ensures (r as int - v as int) % TwoTo64 == 0
  {
    if v >= 0 then v as int as u64 else (v as int + TwoTo64) as u64
  }

  /** `as i64` on a `u64`: the same 64 bits read as two's complement, so values of 2^63
      and above wrap to negative ones. */
  function ToI64(v: u64): (r: i64)
    ensures (r as int - v as int) % TwoTo64 == 0
    ensures ToU64(r) == v
    ensures v as int < TwoTo63 <==> r >= 0
  {
    if v as int < TwoTo63 then v as int as i64 else (v as int - TwoTo64) as i64
  }

  /** The row the insert writes for an item. */
  function RowOf(item: Archive.MetadataItem): Row {
    Row(item.date, item.description, item.title,
        match item.itemSize case None => None case Some(v) => Some(ToI64(v)),
        item.identifier, item.externalIdentifier, item.collections, item.creator)
  }

  /** `INSERT ... ON CONFLICT (identifier) DO NOTHING`. */
  function InsertIfAbsent(store: Store, item: Archive.MetadataItem): Store {
    if item.identifier in store then store else store[item.identifier := RowOf(item)]
  }

  /** The store after every item of the batch is inserted, in order. */
  function InsertAll(store: Store, items: seq<Archive.MetadataItem>): Store
    decreases |items|
  {
    if items == [] then store else InsertAll(InsertIfAbsent(store, items[0]), items[1..])
  }

  /** The identifiers of a batch. */
  function Identifiers(items: seq<Archive.MetadataItem>): set<string> {
    set i | 0 <= i < |items| :: items[i].identifier
  }

  /** The index of the first item of the batch with identifier `id`. */
  function FirstWith(items: seq<Archive.MetadataItem>, id: string): (i: nat)
    requires id in Identifiers(items)
    ensures i < |items| && items[i].identifier == id
    ensures forall j :: 0 <= j < i ==> items[j].identifier != id
    decreases |items|
  {
    if items[0].identifier == id then 0
    else
      assert id in Identifiers(items[1..]) by {
        var k :| 0 <= k < |items| && items[k].identifier == id;
        assert items[1..][k - 1] == items[k];
      }
      1 + FirstWith(items[1..], id)
  }

  /** The expected store, stated key by key: existing rows stay as they are, and each new
      identifier gets the row of the first item of the batch that carries it. */
  function Expected(store: Store, items: seq<Archive.MetadataItem>): Store {
    map id | id in store.Keys + Identifiers(items) ::
      if id in store then store[id] else RowOf(items[FirstWith(items, id)])
  }

  lemma IdentifiersCons(items: seq<Archive.MetadataItem>)
    requires items != []
    ensures Identifiers(items) == {items[0].identifier} + Identifiers(items[1..])
  {
    forall id | id in Identifiers(items)
      ensures id in {items[0].identifier} + Identifiers(items[1..])
    {
      var k :| 0 <= k < |items| && items[k].identifier == id;
      if k > 0 {
        assert items[1..][k - 1] == items[k];
      }
    }
    forall id | id in Identifiers(items[1..]) ensures id in Identifiers(items) {
      var k :| 0 <= k < |items[1..]| && items[1..][k].identifier == id;
      assert items[k + 1] == items[1..][k];
    }
  }

  /** One value of `Expected` after the first item is inserted. */
  lemma ExpectedConsAt(store: Store, items: seq<Archive.MetadataItem>, id: string)
    requires items != []
    requires Identifiers(items) == {items[0].identifier} + Identifiers(items[1..])
    requires id in store.Keys + Identifiers(items)
    ensures id in Expected(InsertIfAbsent(store, items[0]), items[1..])
    ensures Expected(InsertIfAbsent(store, items[0]), items[1..])[id] == Expected(store, items)[id]
  {
    var s1 := InsertIfAbsent(store, items[0]);
    if id !in store && id == items[0].identifier {
      assert FirstWith(items, id) == 0;
      assert s1[id] == RowOf(items[0]);
    } else if id !in store {
      assert id in Identifiers(items[1..]);
      assert FirstWith(items, id) == 1 + FirstWith(items[1..], id);
    }
  }

  /** Inserting the first item and then the rest is what `Expected` says of the batch. */
  lemma ExpectedCons(store: Store, items: seq<Archive.MetadataItem>)
    requires items != []
    ensures Expected(InsertIfAbsent(store, items[0]), items[1..]) == Expected(store, items)
  {
    IdentifiersCons(items);
    var a := Expected(InsertIfAbsent(store, items[0]), items[1..]);
    var b := Expected(store, items);
    assert a.Keys == b.Keys;
    forall id | id in b.Keys ensures a[id] == b[id] {
      ExpectedConsAt(store, items, id);
    }
  }

  /** The batch insert is exactly insert-if-absent with the first item winning:
      `InsertAll` agrees with `Expected`. */
  lemma {:induction false} InsertAllIsExpected(store: Store, items: seq<Archive.MetadataItem>)
    ensures InsertAll(store, items) == Expected(store, items)
    decreases |items|
  {
    if items == [] {
      assert Identifiers(items) == {};
      assert Expected(store, items) == store;
    } else {
      InsertAllIsExpected(InsertIfAbsent(store, items[0]), items[1..]);
      ExpectedCons(store, items);
    }
  }

  /** Existing rows are never overwritten, and the store only grows: its keys afterwards
      are the old keys plus the batch's identifiers. */
  lemma InsertAllKeepsExisting(store: Store, items: seq<Archive.MetadataItem>)
    ensures InsertAll(store, items).Keys == store.Keys + Identifiers(items)
    ensures forall id :: id in store ==> InsertAll(store, items)[id] == store[id]
  {
    InsertAllIsExpected(store, items);
  }

  /** Within one batch the earlier of two items with the same identifier is the one stored. */
  lemma InsertAllFirstWins(store: Store, items: seq<Archive.MetadataItem>, i: nat)
    requires i < |items| && items[i].identifier !in store
    requires forall j :: 0 <= j < i ==> items[j].identifier != items[i].identifier
    ensures items[i].identifier in InsertAll(store, items)
    ensures InsertAll(store, items)[items[i].identifier] == RowOf(items[i])
  {
    InsertAllIsExpected(store, items);
    assert items[i].identifier in Identifiers(items);
    assert FirstWith(items, items[i].identifier) == i;
  }

  /** Inserting the same batch twice leaves the store inserting it once leaves. */
  lemma InsertAllIdempotent(store: Store, items: seq<Archive.MetadataItem>)
    ensures InsertAll(InsertAll(store, items), items) == InsertAll(store, items)
  {
    var once := InsertAll(store, items);
    InsertAllIsExpected(store, items);
    InsertAllIsExpected(once, items);
    assert Expected(once, items) == once;
  }

  /** The database's answers to the calls `insert_items` makes: whether `begin` fails,
      the position of the first insert that fails, if any, and whether `commit` fails. */
  datatype Faults = Faults(beginFails: bool, failingInsert: Option<nat>, commitFails: bool)

  /** True when `insert_items` with these faults gets an error for a batch of `n` items. */
  predicate BatchFails(faults: Faults, n: nat) {
    faults.beginFails || (faults.failingInsert.Some? && faults.failingInsert.value < n) || faults.commitFails
  }

  /** The error `insert_items` returns when the batch fails. */
  function BatchError(faults: Faults, n: nat): Error {
    if faults.beginFails then Error("failed to start transaction")
    else if faults.failingInsert.Some? && faults.failingInsert.value < n then Error("failed to insert item")
    else Error("failed to commit transaction")
  }

  class Database {
    var rows: Store

    constructor (rows: Store)
      ensures this.rows == rows
    {
      this.rows := rows;
    }

    /** `insert_items`: an empty batch succeeds at once without opening a transaction;
        otherwise every item is inserted if absent inside one transaction, which is
        committed only if every insert succeeded. The store ends either with the whole
        batch applied or exactly as it was. */
    method InsertItems(items: seq<Archive.MetadataItem>, faults: Faults) returns (r: Outcome)
      modifies this
      ensures items == [] ==> r == Pass && rows == old(rows)
      ensures items != [] ==> r == (if BatchFails(faults, |items|) then Fail(BatchError(faults, |items|)) else Pass)
      ensures r.Pass? ==> rows == InsertAll(old(rows), items)
      ensures r.Fail? ==> rows == old(rows)
    {
      if items == [] {
        return Pass;
      }
      if faults.beginFails {
        return Fail(Error("failed to start transaction"));
      }
      var tx := rows;
      var i := 0;
      while i < |items|
        invariant 0 <= i <= |items|
        invariant faults.failingInsert.None? || faults.failingInsert.value >= i
        invariant InsertAll(rows, items) == InsertAll(tx, items[i..])
      {
        if faults.failingInsert == Some(i) {
          return Fail(Error("failed to insert item"));
        }
        assert items[i..][1..] == items[i + 1..];
        tx := InsertIfAbsent(tx, items[i]);
        i := i + 1;
      }
      if faults.commitFails {
        return Fail(Error("failed to commit transaction"));
      }
      assert items[i..] == [];
      rows := tx;
      r := Pass;
    }
  }
}
