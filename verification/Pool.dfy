/**
 The address pool (address/manager.go, api.go, fillpool.go, poolupdate.go, address.go): all records in one map,
 the unsubscribed ones in a second, and a lookup index that is rebuilt some time after every change. Each method
 runs under the pool's lock; rebuilding the index, started in the background by the source, is a step of its own.
 The index is a map here; module FastMap shows that the flattened trie answers as that map does.
 */
module Pool {
  import opened Wrappers
  import opened PoolState

  class Record {
    const address: Key
    const addressBytes: Key
    var serviceId: int
    var userId: int
    var invoiceId: int
    var watchOnly: bool
    var subscribed: bool

    constructor (row: Row)
      ensures Saved() == row
    {
      address, addressBytes := row.address, row.addressBytes;
      serviceId, userId, invoiceId := row.serviceId, row.userId, row.invoiceId;
      watchOnly, subscribed := row.watchOnly, row.subscribed;
    }

    /** Sets every field that can change. */
    method Fill(row: Row)
      modifies this
      ensures Saved() == row.(address := address, addressBytes := addressBytes)
    {
      serviceId, userId, invoiceId := row.serviceId, row.userId, row.invoiceId;
      watchOnly, subscribed := row.watchOnly, row.subscribed;
    }

    function Saved(): Row
      reads this
    {
      Row(address, addressBytes, serviceId, userId, invoiceId, watchOnly, subscribed)
    }
  }

  /** What the storage would be given for the records of a batch. */
  function RowsOf(batch: seq<Record?>): (rows: seq<Option<Row>>)
    reads batch
    ensures |rows| == |batch|
    ensures forall i :: 0 <= i < |batch| ==> rows[i] == RowOf(batch[i])
  {
    seq(|batch|, i requires 0 <= i < |batch| reads batch => RowOf(batch[i]))
  }

  /** The rows of the records of a map. */
  ghost function Rows(m: map<Key, Record>): map<Key, Row>
    reads m.Values
  {
    map k | k in m :: m[k].Saved()
  }

  lemma RowsAt(m: map<Key, Record>)
    ensures Rows(m).Keys == m.Keys && |Rows(m)| == |m|
    ensures forall k :: k in m ==> Rows(m)[k] == m[k].Saved()
  {
    assert Rows(m).Keys == m.Keys;
  }

  lemma RowsInsert(m: map<Key, Record>, k: Key, r: Record)
    ensures Rows(m[k := r]) == Rows(m)[k := r.Saved()]
  {
  }

  /** The free map is exactly the unsubscribed records of the full map. */
  ghost predicate FreeIsUnsubscribed(all: map<Key, Record>, free: map<Key, Record>)
    reads all.Values
  {
    && (forall k :: k in free ==> k in all && free[k] == all[k])
    && (forall k :: k in all ==> (k in free <==> !all[k].subscribed))
  }

  lemma FreeReplace(all: map<Key, Record>, free: map<Key, Record>, k: Key, r: Record)
    requires FreeIsUnsubscribed(all, free)
    ensures FreeIsUnsubscribed(all[k := r], if r.subscribed then free else free[k := r])
            <==> !(k in free && r.subscribed)
    ensures free[k := r].Keys == free.Keys + {k}
  {
    var all', free' := all[k := r], if r.subscribed then free else free[k := r];
    if k in free && r.subscribed {
      assert k in free' && k in all' && all'[k].subscribed;
    }
  }

  /** Every record of `before` is still the same object. */
  ghost predicate SameObjects(before: map<Key, Record>, all: map<Key, Record>)
  {
    forall k :: k in before ==> k in all && all[k] == before[k]
  }

  function RowOf(r: Record?): Option<Row>
    reads r
  {
    if r == null then None else Some(r.Saved())
  }

  /** A call to the pool, with what generation and storage do. */
  datatype Request =
    | AddBulk(addresses: seq<Record?>, readable: Key -> bool, writable: Key -> bool)
    | Ask(serviceId: int, userId: int, invoiceId: int, watchOnly: bool, writable: Key -> bool)
    | CheckFree(enabled: bool, minFree: int, upTo: int, generated: seq<(Key, Key)>, writable: Key -> bool)
    | Rebuild

  /** The operation that a call is, with the contents that the records of a batch have at that time. */
  ghost function OpOf(req: Request): Op
    reads if req.AddBulk? then req.addresses else []
  {
    match req
    case AddBulk(addresses, readable, writable) => Bulk(RowsOf(addresses), readable, writable)
    case Ask(serviceId, userId, invoiceId, watchOnly, writable) =>
      Handout(serviceId, userId, invoiceId, watchOnly, writable)
    case CheckFree(enabled, minFree, upTo, generated, writable) => Check(enabled, minFree, upTo, generated, writable)
    case Rebuild => Reindex
  }

  /** The same, whatever the records of a batch contain: addresses never change. */
  ghost predicate IsOp(req: Request, op: Op)
  {
    match req
    case AddBulk(addresses, readable, writable) =>
      && op.Bulk? && op.readable == readable && op.writable == writable && |op.batch| == |addresses|
      && forall i :: 0 <= i < |addresses| ==> SameAddress(addresses[i], op.batch[i])
    case Ask(serviceId, userId, invoiceId, watchOnly, writable) =>
      op == Handout(serviceId, userId, invoiceId, watchOnly, writable)
    case CheckFree(enabled, minFree, upTo, generated, writable) =>
      op == Check(enabled, minFree, upTo, generated, writable)
    case Rebuild => op == Reindex
  }

  ghost predicate SameAddress(r: Record?, row: Option<Row>)
  {
    && (r != null <==> row.Some?)
    && (r != null ==> row.value.address == r.address && row.value.addressBytes == r.addressBytes)
  }

  lemma OpIs(req: Request)
    ensures IsOp(req, OpOf(req))
  {
  }

  /** The records that a call brings along are among `world`. */
  ghost predicate BringsFrom(req: Request, world: set<Record>)
  {
    req.AddBulk? ==> forall r :: r in req.addresses && r != null ==> r in world
  }

  lemma MoreRecords(req: Request, world: set<Record>, more: set<Record>)
    requires BringsFrom(req, world) && world <= more
    ensures BringsFrom(req, more)
  {
  }

  class Manager {
    var all: map<Key, Record>
    var free: map<Key, Record>
    var index: map<Key, Record>
    var db: map<Key, Row>

    ghost predicate Coherent()
      reads this`all, this`free, all.Values
    {
      FreeIsUnsubscribed(all, free)
    }

    /** Free map and index hold the very records of the full map. */
    ghost predicate Valid()
      reads this, all.Values
    {
      && Coherent()
      && (forall k :: k in all ==> all[k].address == k)
      && (forall k :: k in index ==> k in all && index[k] == all[k])
    }

    /** The pool as a value. */
    ghost function Snap(): State
      reads this, all.Values
    {
      State(Rows(all), free.Keys, index.Keys, db)
    }

    lemma SnapCoherent()
      requires Valid()
      ensures PoolState.Coherent(Snap())
    {
    }

    constructor (db: map<Key, Row>)
      ensures Valid() && all == free == index == map[] && this.db == db
    {
      all, free, index, this.db := map[], map[], map[], db;
    }

    /** What the maps hold for one address once `rows` are read: its last row, and its last free row. */
    ghost predicate LoadedAt(rows: seq<Row>, k: Key)
      reads this`all, this`free, all.Values
    {
      && (k in all <==> Last(rows, k).Some?)
      && (k in all ==> all[k].address == k && all[k].Saved() == Last(rows, k).value)
      && (k in free <==> HasFree(rows, k))
      && (k in free && !Last(rows, k).value.subscribed ==> free[k] == all[k])
    }

    ghost predicate Loaded(rows: seq<Row>)
      reads this`all, this`free, all.Values
    {
      forall k :: LoadedAt(rows, k)
    }

    /** `rows` are the rows in the order the storage returns them. */
    method PreLoadAddresses(rows: seq<Row>)
      requires all == free == index == map[]
      modifies this
      ensures db == old(db) && index == all
      ensures forall k :: k in all <==> Last(rows, k).Some?
      ensures forall k :: k in all ==> fresh(all[k]) && all[k].Saved() == Last(rows, k).value
      ensures Coherent() <==> FreeStaysFree(rows)
      ensures FreeStaysFree(rows) ==> Valid()
      ensures Snap() == Restarted(rows, old(db))
    {
      hide Last, HasFree;
      NoRows();
      for i := 0 to |rows|
        invariant db == old(db) && index == map[]
        invariant forall k :: k in all ==> fresh(all[k])
        invariant Loaded(rows[..i])
      {
        LoadRow(rows, i);
      }
      assert rows[..|rows|] == rows;
      LoadedCoherent(rows);
      UpdatePool();
      LoadedSnap(rows);
    }

    lemma LoadedCoherent(rows: seq<Row>)
      requires Loaded(rows)
      ensures forall k :: k in all <==> Last(rows, k).Some?
      ensures forall k :: k in all ==> all[k].address == k && all[k].Saved() == Last(rows, k).value
      ensures Coherent() <==> FreeStaysFree(rows)
    {
      hide Last, HasFree;
      forall k ensures k in all <==> Last(rows, k).Some?
               ensures k in all ==> all[k].address == k && all[k].Saved() == Last(rows, k).value {
        assert LoadedAt(rows, k);
      }
      if Coherent() {
        forall k | HasFree(rows, k) ensures !Last(rows, k).value.subscribed {
          assert LoadedAt(rows, k);
        }
      }
      if FreeStaysFree(rows) {
        forall k | k in all ensures k in free <==> !all[k].subscribed {
          assert LoadedAt(rows, k);
          if !all[k].subscribed {
            LastFree(rows, k);
          }
        }
        forall k | k in free ensures k in all && free[k] == all[k] {
          assert LoadedAt(rows, k);
        }
      }
    }

    lemma LoadedSnap(rows: seq<Row>)
      requires Loaded(rows) && index == all
      ensures Snap() == Restarted(rows, db)
    {
      hide Last, HasFree, LoadedRows, LoadedFree;
      forall k ensures k in all <==> k in LoadedRows(rows)
               ensures k in all ==> all[k].Saved() == LoadedRows(rows)[k]
               ensures k in free <==> k in LoadedFree(rows) {
        assert LoadedAt(rows, k);
        LoadedIs(rows, k);
      }
      RowsAt(all);
      assert Rows(all) == LoadedRows(rows);
    }

    method LoadRow(rows: seq<Row>, i: nat)
      requires i < |rows| && Loaded(rows[..i])
      modifies this`all, this`free
      ensures Loaded(rows[..i + 1])
      ensures forall k :: k in all ==> fresh(all[k]) || (k in old(all) && all[k] == old(all[k]))
    {
      hide Last, HasFree;
      var address := new Record(rows[i]);
      all := all[address.address := address];
      if !address.subscribed {
        free := free[address.address := address];
      }
      ghost var before, after := rows[..i], rows[..i + 1];
      forall k ensures LoadedAt(after, k) {
        assert old(LoadedAt(before, k));
        RowsNext(rows, i, k);
      }
    }

    /** Rebuilds the index. */
    method UpdatePool()
      modifies this`index
      ensures all != map[] ==> index == all
      ensures all == map[] ==> index == old(index)
    {
      if |all| != 0 {
        index := all;
      }
    }

    /** `Save` of the Badger storage. */
    method Save(address: Record, writable: Key -> bool) returns (ok: bool)
      modifies this`db
      ensures ok == Accepts(writable, address.addressBytes)
      ensures db == Put(old(db), address.Saved(), writable)
    {
      ok := Accepts(writable, address.addressBytes);
      if ok {
        db := db[address.addressBytes := address.Saved()];
      }
    }

    /**
     `addAddressUnsafe` for an address that is not indexed. A record of that address in memory is replaced; if that
     one is free and the new one is not, the free map is left with the old record.
     */
    method AddAddressUnsafe(address: Record, writable: Key -> bool) returns (ok: bool)
      requires Valid() && address.address !in index
      modifies this`all, this`free, this`db
      ensures ok == Accepts(writable, address.addressBytes)
      ensures Valid() <==> !(address.address in old(free) && address.subscribed)
      ensures all == old(all)[address.address := address]
      ensures free == if address.subscribed then old(free) else old(free)[address.address := address]
      ensures Snap() == Insert(old(Snap()), address.Saved(), writable)
    {
      hide Put, Rows, Accepts, FreeIsUnsubscribed;
      RowsInsert(all, address.address, address);
      FreeReplace(all, free, address.address, address);
      all := all[address.address := address];
      if !address.subscribed {
        free := free[address.address := address];
      }
      ok := Save(address, writable);
    }

    /** Adds one record that the index does not know; unlike the bulk add, it looks neither in memory nor in storage. */
    method AddAddressRecord(address: Record, writable: Key -> bool) returns (known: bool, ok: bool)
      requires Valid()
      modifies this`all, this`free, this`db
      ensures known == (address.address in index)
      ensures known ==> all == old(all) && Snap() == old(Snap())
      ensures !known ==> all == old(all)[address.address := address] && ok == Accepts(writable, address.addressBytes)
                         && Snap() == Insert(old(Snap()), address.Saved(), writable)
      ensures free == if known || address.subscribed then old(free) else old(free)[address.address := address]
      ensures SameObjects(old(all), all) <==>
              address.address in index || address.address !in old(all) || old(all)[address.address] == address
      ensures Valid() <==> address.address in index || address.address !in old(free) || !address.subscribed
    {
      hide Coherent, Insert, Accepts, Rows;
      known := address.address in index;
      if known {
        return true, false;
      }
      ok := AddAddressUnsafe(address, writable);
    }

    /** `isAddressInDBUnsafe` */
    method IsAddressInDBUnsafe(a: Record, readable: Key -> bool) returns (found: bool)
      ensures found == Seen(db, readable, a.addressBytes)
    {
      if |a.addressBytes| == 0 {
        return false;
      }
      if a.addressBytes !in db || !readable(a.addressBytes) {
        return false;
      }
      return db[a.addressBytes].address != [];
    }

    lemma FreeAt(k: Key)
      requires Coherent() && k in free
      ensures k in all && free[k] == all[k]
    {
    }

    lemma FreeKnown()
      requires Coherent()
      ensures free.Keys <= all.Keys
    {
    }

    /** One record of a batch: skipped, or added to memory and, if its row is accepted, to storage. */
    method AddFromBatch(address: Record?, readable: Key -> bool, writable: Key -> bool) returns (ok: bool)
      requires Valid()
      modifies this`all, this`free, this`db
      ensures Valid()
      ensures (Snap(), ok) == AddOne(old(Snap()), RowOf(address), readable, writable)
      ensures all == old(all) || (address != null && all == old(all)[address.address := address])
      ensures SameObjects(old(all), all)
    {
      FreeKnown();
      hide Coherent, Insert, Seen, Accepts, Rows;
      RowsAt(all);
      if address == null || address.address == [] {
        return true;
      }
      if address.address in all {
        return true;
      }
      var found := IsAddressInDBUnsafe(address, readable);
      if found {
        return true;
      }
      ok := AddAddressUnsafe(address, writable);
    }

    /**
     Adds what is neither in memory nor seen in storage, and stops at the first row that is refused. The records
     in memory stay the same objects, and new ones are objects of the batch.
     */
    method AddAddressRecordsBulk(addresses: seq<Record?>, readable: Key -> bool, writable: Key -> bool)
        returns (ok: bool)
      requires Valid()
      modifies this`all, this`free, this`db
      ensures Valid()
      ensures (Snap(), ok) == BulkAdd(old(Snap()), old(RowsOf(addresses)), readable, writable)
      ensures SameObjects(old(all), all)
      ensures forall k :: k in all && k !in old(all) ==> all[k] in addresses
    {
      hide Coherent, AddOne, BulkAdd, Rows;
      ok := true;
      ghost var s, rows := Snap(), RowsOf(addresses);
      BulkStart(s, readable, writable);
      assert rows[..0] == [];
      for i := 0 to |addresses|
        invariant Valid() && ok && (Snap(), true) == BulkAdd(s, rows[..i], readable, writable)
        invariant SameObjects(old(all), all)
        invariant forall k :: k in all && k !in old(all) ==> all[k] in addresses
      {
        BulkNext(s, rows, i, readable, writable);
        ok := AddFromBatch(addresses[i], readable, writable);
        if !ok {
          BulkFailed(s, rows, i + 1, readable, writable);
          return;
        }
      }
      assert rows[..|addresses|] == rows;
    }

    /** `updateAddressUnsafe`: the record is looked up in the index, changed, moved in or out of the free map, saved. */
    method UpdateAddressUnsafe(address: Key, row: Row, writable: Key -> bool) returns (found: bool)
      requires Valid()
      modifies this`free, this`db, if address in index then {index[address]} else {}
      ensures Valid() && found == (address in index)
      ensures !found ==> Snap() == old(Snap())
      ensures found ==>
                var changed := row.(address := address, addressBytes := index[address].addressBytes);
                && Snap() == Updated(old(Snap()), changed, writable)
                && index[address].Saved() == changed && db == Put(old(db), changed, writable)
      ensures forall k :: k in all && k != address ==> all[k].Saved() == old(all[k].Saved())
      ensures !found ==> db == old(db) && forall k :: k in all ==> all[k].Saved() == old(all[k].Saved())
    {
      hide Put, Rows, Accepts, FreeIsUnsubscribed;
      if address !in index {
        return false;
      }
      found := true;
      var record := index[address];
      FillRecord(record, row);
      if !record.subscribed {
        free := free[record.address := record];
      } else {
        free := free - {record.address};
        assert free.Keys == old(free.Keys) - {address};
      }
      var _ := Save(record, writable);
    }

    /** A change of one record changes one row. */
    method FillRecord(record: Record, row: Row)
      requires forall k :: k in all ==> all[k].address == k
      requires record.address in all && all[record.address] == record && FreeIsUnsubscribed(all, free)
      modifies record
      ensures row.subscribed ==> FreeIsUnsubscribed(all, free - {record.address})
      ensures !row.subscribed ==> FreeIsUnsubscribed(all, free[record.address := record])
      ensures free[record.address := record].Keys == free.Keys + {record.address}
      ensures record.Saved() == row.(address := record.address, addressBytes := record.addressBytes)
      ensures Rows(all) == old(Rows(all))[record.address := record.Saved()]
    {
      record.Fill(row);
      assert forall k :: k in all && k != record.address ==> all[k] != record;
    }

    /** Any free record. */
    method GetFreeAddressUnsafe() returns (addressRecord: Record)
      requires Valid() && free != map[]
      ensures addressRecord.address in free && free[addressRecord.address] == addressRecord
      ensures addressRecord.address in all && all[addressRecord.address] == addressRecord
    {
      var k :| k in free;
      addressRecord := free[k];
    }

    /** What a request got. */
    ghost function GivenOf(r: Record?): Given
      reads this
    {
      if r == null then Nobody else if r.address in index then Indexed(r.address) else Lagging(r.address)
    }

    /** Hands out any free address. A subscription is recorded only if the index already contains the address. */
    method GetFreeAddressAndSubscribe(
        serviceId: int, userId: int, invoiceId: int, watchOnly: bool, writable: Key -> bool)
        returns (addressRecord: Record?)
      requires Valid()
      modifies this`free, this`db, index.Values
      ensures Valid()
      ensures addressRecord != null ==>
                && addressRecord.address in old(free) && old(free)[addressRecord.address] == addressRecord
                && addressRecord.address in all && all[addressRecord.address] == addressRecord
      ensures HandedOut(Handout(serviceId, userId, invoiceId, watchOnly, writable), old(Snap()), Snap(),
                        GivenOf(addressRecord))
      ensures addressRecord != null && addressRecord.address in index ==>
                && addressRecord.serviceId == serviceId && addressRecord.userId == userId
                && addressRecord.invoiceId == invoiceId && addressRecord.watchOnly == watchOnly
                && addressRecord.subscribed
                && (Accepts(writable, addressRecord.addressBytes) ==>
                      addressRecord.addressBytes in db
                      && db[addressRecord.addressBytes]
                         == Row(addressRecord.address, addressRecord.addressBytes, serviceId, userId, invoiceId,
                                watchOnly, true))
      ensures forall k :: k in all && (addressRecord == null || k != addressRecord.address) ==>
                all[k].Saved() == old(all[k].Saved())
      ensures forall b :: addressRecord == null || b != addressRecord.addressBytes ==>
                (b in db <==> b in old(db)) && (b in db ==> db[b] == old(db)[b])
    {
      hide Coherent, Updated, Snap, Put;
      SnapKeys();
      if |free| == 0 {
        return null;
      }
      var record := GetFreeAddressUnsafe();
      addressRecord := record;
      var row := Row(record.address, record.addressBytes, serviceId, userId, invoiceId, watchOnly, true);
      ghost var before := db;
      var found := UpdateAddressUnsafe(record.address, row, writable);
      if found {
        PutFields(before, row, writable);
      }
    }

    /**
     Generates up to `refillAmount` new addresses. `generated` are the address strings and bytes that generation
     yields before it first fails; a record whose row is refused stays in the pool and ends the refill.
     */
    method RefillFreeAddressPool(refillAmount: int, generated: seq<(Key, Key)>, writable: Key -> bool)
      requires Valid() && FreshKeys(generated, all.Keys)
      modifies this`all, this`free, this`db
      ensures Valid()
      ensures Snap() == Refill(old(Snap()), refillAmount, generated, writable)
      ensures SameObjects(old(all), all)
      ensures forall k :: k in all && k !in old(all) ==> fresh(all[k])
    {
      hide Snap, Valid, Refill, FreshKeys;
      SnapKeys();
      ghost var s, left := Snap(), generated;
      var i := 0;
      while i < refillAmount
        invariant Valid() && 0 <= i <= |generated| && left == generated[i..]
        invariant Refill(s, refillAmount, generated, writable) == Refill(Snap(), refillAmount - i, left, writable)
        invariant FreshKeys(left, Snap().rows.Keys)
        invariant SameObjects(old(all), all)
        invariant forall k :: k in all && k !in old(all) ==> fresh(all[k])
        decreases refillAmount - i
      {
        if i == |generated| {
          break;
        }
        var ok := AddNext(generated[i], writable, refillAmount - i, left);
        i := i + 1;
        if !ok {
          return;
        }
        left := left[1..];
      }
      RefillNothing(Snap(), refillAmount - i, left, writable);
    }

    lemma SnapKeys()
      ensures Snap().rows.Keys == all.Keys && Snap().free == free.Keys && Snap().index == index.Keys
      ensures forall k :: k in all ==> Snap().rows[k] == all[k].Saved()
    {
      RowsAt(all);
    }

    /** The next of the generated records. */
    method AddNext(keys: (Key, Key), writable: Key -> bool, ghost amount: int, ghost left: seq<(Key, Key)>)
        returns (ok: bool)
      requires Valid() && amount > 0 && left != [] && left[0] == keys && FreshKeys(left, Snap().rows.Keys)
      modifies this`all, this`free, this`db
      ensures Valid()
      ensures Refill(old(Snap()), amount, left, writable)
              == if ok then Refill(Snap(), amount - 1, left[1..], writable) else Snap()
      ensures FreshKeys(left[1..], Snap().rows.Keys)
      ensures keys.0 !in old(all) && keys.0 in all && fresh(all[keys.0])
      ensures all == old(all)[keys.0 := all[keys.0]]
    {
      hide Coherent, Refill, FreshKeys, Insert, Rows, Accepts;
      RowsAt(all);
      FirstIsNew(Snap(), left);
      FreshRest(Snap(), left, writable);
      RefillStep(Snap(), amount, left, writable);
      ok := AddGenerated(keys, writable);
    }

    /** One generated record. */
    method AddGenerated(keys: (Key, Key), writable: Key -> bool) returns (ok: bool)
      requires Valid() && keys.0 !in all
      modifies this`all, this`free, this`db
      ensures Valid() && ok == Accepts(writable, keys.1)
      ensures keys.0 in all && fresh(all[keys.0]) && all == old(all)[keys.0 := all[keys.0]]
      ensures Snap() == Insert(old(Snap()), NewRow(keys), writable)
    {
      hide Put, Rows, Accepts, FreeIsUnsubscribed;
      var record := new Record(NewRow(keys));
      assert record.Saved() == NewRow(keys);
      RowsInsert(all, keys.0, record);
      FreeReplace(all, free, keys.0, record);
      all := all[record.address := record];
      free := free[record.address := record];
      ok := Save(record, writable);
    }

    /** Counts over the full map: the count of unsubscribed records is the size of the free map. */
    method CountFree() returns (total: nat, unsubscribed: nat)
      requires Coherent()
      ensures total == |all| && unsubscribed == |free|
    {
      total, unsubscribed := 0, 0;
      var rest := all.Keys;
      assert rest * free.Keys == free.Keys;
      while rest != {}
        invariant rest <= all.Keys
        invariant total + |rest| == |all| && unsubscribed + |rest * free.Keys| == |free|
        decreases rest
      {
        var k :| k in rest;
        total := total + 1;
        if !all[k].subscribed {
          unsubscribed := unsubscribed + 1;
          assert (rest - {k}) * free.Keys == rest * free.Keys - {k};
        } else {
          assert (rest - {k}) * free.Keys == rest * free.Keys;
        }
        rest := rest - {k};
      }
    }

    /** `checkFreeAddressPool` */
    method CheckFreeAddressPool(enabled: bool, minFree: int, upTo: int, generated: seq<(Key, Key)>,
                                writable: Key -> bool)
      requires Valid() && FreshKeys(generated, all.Keys)
      modifies this`all, this`free, this`db
      ensures Valid()
      ensures Snap() == Checked(old(Snap()), enabled, minFree, upTo, generated, writable)
      ensures SameObjects(old(all), all)
      ensures forall k :: k in all && k !in old(all) ==> fresh(all[k])
    {
      hide Coherent, Refill, FreshKeys, Rows, FreeIsUnsubscribed;
      var total, unsubscribed := CountFree();
      SnapSizes();
      if enabled {
        if total == 0 {
          RefillFreeAddressPool(upTo, generated, writable);
        } else if unsubscribed < minFree {
          RefillFreeAddressPool(upTo - unsubscribed, generated, writable);
        }
      }
    }

    lemma SnapSizes()
      requires Coherent()
      ensures |Snap().rows| == |all| && |Snap().free| == |free|
      ensures |all| == 0 ==> |free| == 0
    {
      RowsAt(all);
    }

    /** One call is one step of the pool as a value. */
    method Step(req: Request, ghost world: set<Record>) returns (given: Given)
      requires Valid() && BringsFrom(req, world)
      requires forall k :: k in all ==> all[k] in world
      modifies this, world
      ensures Valid()
      ensures Stepped(old(OpOf(req)), old(Snap()), Snap(), given)
      ensures given.Indexed? ==>
                && req.Ask? && given.address in all
                && var r := all[given.address];
                && r.serviceId == req.serviceId && r.userId == req.userId && r.invoiceId == req.invoiceId
                && r.watchOnly == req.watchOnly && r.subscribed
      ensures forall k :: k in all ==> all[k] in world || fresh(all[k])
    {
      hide Coherent, BulkAdd, HandedOut, Checked, FreshKeys, Rows;
      given := Nobody;
      RowsAt(all);
      match req {
        case AddBulk(addresses, readable, writable) =>
          var _ := AddAddressRecordsBulk(addresses, readable, writable);
        case Ask(serviceId, userId, invoiceId, watchOnly, writable) =>
          var r := GetFreeAddressAndSubscribe(serviceId, userId, invoiceId, watchOnly, writable);
          given := if r == null then Nobody else if r.address in index then Indexed(r.address) else Lagging(r.address);
        case CheckFree(enabled, minFree, upTo, generated, writable) =>
          if FreshKeys(generated, all.Keys) {
            CheckFreeAddressPool(enabled, minFree, upTo, generated, writable);
          }
        case Rebuild =>
          UpdatePool();
      }
    }

    /**
     Any sequence of calls is a run of the pool as a value, in which each request for an address got what is
     returned; and an address handed out while the index contained it is never handed out again.
     */
    method Run(reqs: seq<Request>, ghost world: set<Record>)
        returns (given: seq<Given>, ghost ops: seq<Op>, ghost states: seq<State>)
      requires Valid()
      requires forall k :: k in all ==> all[k] in world
      requires forall i :: 0 <= i < |reqs| ==> BringsFrom(reqs[i], world)
      modifies this, world
      ensures Valid() && Trace(ops, states, given) && |given| == |reqs|
      ensures states[0] == old(Snap()) && states[|reqs|] == Snap()
      ensures forall i :: 0 <= i < |reqs| ==> IsOp(reqs[i], ops[i])
      ensures forall i, j :: 0 <= i < j < |reqs| && given[i].Indexed? ==>
                given[j] == Nobody || given[j].address != given[i].address
    {
      hide BringsFrom, Stepped, IsOp, Coherent, PoolState.Coherent;
      given, ops, states := [], [], [Snap()];
      SnapCoherent();
      ghost var records := world;
      for i := 0 to |reqs|
        invariant Valid() && Trace(ops, states, given) && |given| == i
        invariant states[0] == old(Snap()) && states[i] == Snap()
        invariant forall r :: r in records ==> r in world || fresh(r)
        invariant world <= records && forall k :: k in all ==> all[k] in records
        invariant forall j :: 0 <= j < i ==> IsOp(reqs[j], ops[j])
      {
        MoreRecords(reqs[i], world, records);
        OpIs(reqs[i]);
        ghost var op := OpOf(reqs[i]);
        var got := Step(reqs[i], records);
        records := records + all.Values;
        TraceNext(ops, states, given, op, Snap(), got);
        given, ops, states := given + [got], ops + [op], states + [Snap()];
      }
      forall i, j | 0 <= i < j < |reqs| && given[i].Indexed?
        ensures given[j] == Nobody || given[j].address != given[i].address
      {
        HandedOnce(ops, states, given, i, j);
      }
    }
  }

  /** A pool with one generated address that is not indexed yet. */
  method OneFree(address: Key, bytes: Key) returns (pool: Manager)
    ensures fresh(pool) && pool.Valid() && pool.index == map[] && pool.free.Keys == {address} == pool.all.Keys
    ensures forall k :: k in pool.all ==> fresh(pool.all[k])
  {
    hide Rows, Put, FreeIsUnsubscribed, Refill;
    pool := new Manager(map[]);
    RowsAt(pool.all);
    ghost var s := pool.Snap();
    var writable: Key -> bool := _ => true;
    pool.RefillFreeAddressPool(1, [(address, bytes)], writable);
    RefillOne(s, (address, bytes), writable);
    RowsAt(pool.all);
    assert pool.free.Keys == {address} == pool.all.Keys;
  }

  /**
   Without a rebuild of the index between refill and handout, one address goes out twice: the guard of
   `GetFreeAddressAndSubscribe` is needed.
   */
  method LaggingIndex(address: Key, bytes: Key) returns (first: Record?, second: Record?)
    ensures first != null && first == second && first.address == address
  {
    hide Rows;
    var pool := OneFree(address, bytes);
    first := pool.GetFreeAddressAndSubscribe(1, 1, 1, false, _ => true);
    assert pool.free.Keys == {address};
    second := pool.GetFreeAddressAndSubscribe(2, 2, 2, false, _ => true);
  }

  /** With the rebuild, the second request finds the pool empty. */
  method CurrentIndex(address: Key, bytes: Key) returns (first: Record?, second: Record?)
    ensures first != null && first.address == address && second == null
  {
    hide Rows;
    var pool := OneFree(address, bytes);
    pool.UpdatePool();
    first := pool.GetFreeAddressAndSubscribe(1, 1, 1, false, _ => true);
    assert pool.free.Keys == {};
    second := pool.GetFreeAddressAndSubscribe(2, 2, 2, false, _ => true);
  }

  /**
   A single addition before the index is rebuilt replaces the record of its address: the one in memory is another
   object, and if the new record is subscribed the address can still be handed out.
   */
  method SingleReplaces(address: Key, bytes: Key, subscribed: bool) returns (pool: Manager, old': Record, r: Record)
    ensures fresh(pool) && pool.all == map[address := r] && old' != r && r.subscribed == subscribed
    ensures pool.Valid() <==> !subscribed
    ensures address in pool.free && (subscribed ==> pool.free[address] == old')
  {
    hide Rows, Insert, Put, Accepts, FreeIsUnsubscribed, Manager.Snap;
    pool := OneFree(address, bytes);
    RowsAt(pool.all);
    old' := pool.all[address];
    pool.FreeAt(address);
    r := new Record(Row(address, bytes, 1, 1, 1, false, subscribed));
    var known, ok := pool.AddAddressRecord(r, _ => true);
    assert pool.all == map[address := r];
  }

  /** A stored row with a blank address is written over by a bulk add of a record with its bytes. */
  method BlankRow(address: Key, bytes: Key) returns (pool: Manager)
    requires address != [] && bytes != []
    ensures pool.db == map[bytes := Row(address, bytes, 0, 0, 0, false, false)]
  {
    hide Rows;
    var blank := Row([], bytes, 7, 7, 7, false, true);
    var row := Row(address, bytes, 0, 0, 0, false, false);
    pool := new Manager(map[bytes := blank]);
    RowsAt(pool.all);
    assert pool.Snap().rows == map[];
    var r := new Record(row);
    BlankRowReplaced(blank, row);
    assert RowsOf([r]) == [Some(row)];
    var _ := pool.AddAddressRecordsBulk([r], _ => true, _ => true);
  }
}
