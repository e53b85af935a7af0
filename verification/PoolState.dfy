/**
 The address pool as values: what each operation of address/api.go, fillpool.go and poolupdate.go does to the
 records, the free addresses, the index and the storage, and what holds over runs of operations.
 */
module PoolState {
  import opened Wrappers
  import opened Radix

  type Key = seq<byte>

  /** A record as it is stored, under its address bytes. */
  datatype Row = Row(address: Key, addressBytes: Key, serviceId: int, userId: int, invoiceId: int,
                     watchOnly: bool, subscribed: bool)

  /** The records in memory by address, the free and the indexed addresses, and the stored rows by address bytes. */
  datatype State = State(rows: map<Key, Row>, free: set<Key>, index: set<Key>, db: map<Key, Row>)

  /** The free addresses are exactly those of the unsubscribed records, and the index knows no others. */
  ghost predicate Coherent(s: State)
  {
    && (forall k :: k in s.rows ==> s.rows[k].address == k)
    && (forall k :: k in s.free <==> k in s.rows && !s.rows[k].subscribed)
    && s.index <= s.rows.Keys
  }

  // ---------- loading ----------

  /** The last row with the given address. */
  function Last(rows: seq<Row>, a: Key): Option<Row>
  {
    if rows == [] then None
    else if rows[|rows| - 1].address == a then Some(rows[|rows| - 1])
    else Last(rows[..|rows| - 1], a)
  }

  /** Some row with the given address is free. */
  predicate HasFree(rows: seq<Row>, a: Key)
    ensures HasFree(rows, a) ==> Last(rows, a).Some?
  {
    rows != [] && ((rows[|rows| - 1].address == a && !rows[|rows| - 1].subscribed) || HasFree(rows[..|rows| - 1], a))
  }

  lemma NoRows()
    ensures forall a :: Last([], a) == None && !HasFree([], a)
  {
  }

  lemma {:induction false} LastFree(rows: seq<Row>, a: Key)
    requires Last(rows, a).Some? && !Last(rows, a).value.subscribed
    ensures HasFree(rows, a)
  {
    if rows[|rows| - 1].address != a {
      LastFree(rows[..|rows| - 1], a);
    }
  }

  lemma RowsNext(rows: seq<Row>, i: nat, a: Key)
    requires i < |rows|
    ensures HasFree(rows[..i + 1], a) == (HasFree(rows[..i], a) || (rows[i].address == a && !rows[i].subscribed))
    ensures Last(rows[..i + 1], a) == if rows[i].address == a then Some(rows[i]) else Last(rows[..i], a)
  {
    assert rows[..i + 1][..i] == rows[..i];
  }

  /** What the pool needs of the storage: an address that is free in some row is free in its last row. */
  ghost predicate FreeStaysFree(rows: seq<Row>)
  {
    forall a :: HasFree(rows, a) ==> !Last(rows, a).value.subscribed
  }

  /** A free row that is followed by a subscribed row of the same address: the pool comes up incoherent. */
  lemma StaleFreeRow(a: Key, bytes: Key, bytes': Key)
    requires bytes != bytes'
    ensures !FreeStaysFree([Row(a, bytes, 0, 0, 0, false, false), Row(a, bytes', 1, 1, 1, false, true)])
  {
    var rows := [Row(a, bytes, 0, 0, 0, false, false), Row(a, bytes', 1, 1, 1, false, true)];
    assert rows[..1] == [rows[0]];
    assert HasFree(rows[..1], a);
    assert HasFree(rows, a) && Last(rows, a) == Some(rows[1]);
  }

  /** The records in memory once `rows` are read in this order. */
  function LoadedRows(rows: seq<Row>): map<Key, Row>
  {
    if rows == [] then map[] else
      LoadedRows(rows[..|rows| - 1])[rows[|rows| - 1].address := rows[|rows| - 1]]
  }

  function LoadedFree(rows: seq<Row>): set<Key>
  {
    if rows == [] then {} else
      LoadedFree(rows[..|rows| - 1]) + if rows[|rows| - 1].subscribed then {} else {rows[|rows| - 1].address}
  }

  /** The pool after a start on the stored rows. */
  function Restarted(rows: seq<Row>, db: map<Key, Row>): State
  {
    State(LoadedRows(rows), LoadedFree(rows), LoadedRows(rows).Keys, db)
  }

  lemma {:induction false} LoadedIs(rows: seq<Row>, a: Key)
    ensures a in LoadedRows(rows) <==> Last(rows, a).Some?
    ensures a in LoadedRows(rows) ==> LoadedRows(rows)[a] == Last(rows, a).value
    ensures a in LoadedFree(rows) <==> HasFree(rows, a)
  {
    if rows != [] {
      LoadedIs(rows[..|rows| - 1], a);
    }
  }

  // ---------- storage ----------

  /** Badger refuses a write under the empty key; `writable` says what else the storage refuses. */
  predicate Accepts(writable: Key -> bool, bytes: Key) { bytes != [] && writable(bytes) }

  function Put(db: map<Key, Row>, row: Row, writable: Key -> bool): map<Key, Row>
  {
    if Accepts(writable, row.addressBytes) then db[row.addressBytes := row] else db
  }

  lemma PutFields(db: map<Key, Row>, row: Row, writable: Key -> bool)
    ensures Accepts(writable, row.addressBytes) ==>
              row.addressBytes in Put(db, row, writable) && Put(db, row, writable)[row.addressBytes] == row
    ensures forall b :: b != row.addressBytes || !Accepts(writable, b) ==>
              (b in Put(db, row, writable) <==> b in db) && (b in db ==> Put(db, row, writable)[b] == db[b])
  {
  }

  /** A stored row that `isAddressInDBUnsafe` can see: not under the empty key, readable, and not blank. */
  predicate Seen(db: map<Key, Row>, readable: Key -> bool, bytes: Key)
    ensures Seen(db, readable, bytes) ==> bytes in db
  {
    bytes != [] && bytes in db && readable(bytes) && db[bytes].address != []
  }

  // ---------- adding ----------

  /** A new record in memory and, if it is accepted, in storage. */
  function Insert(s: State, row: Row, writable: Key -> bool): State
  {
    State(s.rows[row.address := row], if row.subscribed then s.free else s.free + {row.address}, s.index,
          Put(s.db, row, writable))
  }

  /** The test of the bulk add: a record that is not null, blank, in memory or seen in storage. */
  predicate Adds(s: State, entry: Option<Row>, readable: Key -> bool)
  {
    && entry.Some? && entry.value.address != [] && entry.value.address !in s.rows
    && !Seen(s.db, readable, entry.value.addressBytes)
  }

  function AddOne(s: State, entry: Option<Row>, readable: Key -> bool, writable: Key -> bool): (State, bool)
  {
    if Adds(s, entry, readable)
    then (Insert(s, entry.value, writable), Accepts(writable, entry.value.addressBytes))
    else (s, true)
  }

  /** A batch, record by record, up to the first one whose row the storage refuses. */
  function BulkAdd(s: State, batch: seq<Option<Row>>, readable: Key -> bool, writable: Key -> bool): (State, bool)
  {
    if batch == [] then (s, true) else
      var (before, ok) := BulkAdd(s, batch[..|batch| - 1], readable, writable);
      if ok then AddOne(before, batch[|batch| - 1], readable, writable) else (before, false)
  }

  lemma BulkStart(s: State, readable: Key -> bool, writable: Key -> bool)
    ensures BulkAdd(s, [], readable, writable) == (s, true)
  {
  }

  lemma BulkNext(s: State, batch: seq<Option<Row>>, i: nat, readable: Key -> bool, writable: Key -> bool)
    requires i < |batch|
    ensures var (before, ok) := BulkAdd(s, batch[..i], readable, writable);
            BulkAdd(s, batch[..i + 1], readable, writable)
            == if ok then AddOne(before, batch[i], readable, writable) else (before, false)
  {
    assert batch[..i + 1][..i] == batch[..i];
  }

  /** A batch that failed once does nothing more. */
  lemma {:induction false} BulkFailed(s: State, batch: seq<Option<Row>>, i: nat, readable: Key -> bool,
                                      writable: Key -> bool)
    requires i <= |batch| && !BulkAdd(s, batch[..i], readable, writable).1
    ensures BulkAdd(s, batch, readable, writable) == BulkAdd(s, batch[..i], readable, writable)
    decreases |batch|
  {
    if i == |batch| {
      assert batch[..i] == batch;
    } else {
      var front := batch[..|batch| - 1];
      assert front[..i] == batch[..i];
      BulkFailed(s, front, i, readable, writable);
    }
  }

  /** No record in memory is touched, everything new is from the batch, and the pool stays coherent. */
  lemma {:induction false} BulkMemory(s: State, batch: seq<Option<Row>>, readable: Key -> bool,
                                      writable: Key -> bool)
    ensures var after := BulkAdd(s, batch, readable, writable).0;
            && (forall k :: k in s.rows ==> k in after.rows && after.rows[k] == s.rows[k])
            && (forall k :: k in after.rows && k !in s.rows ==> k != [] && after.rows[k].address == k)
            && (forall k :: k in after.rows && k !in s.rows ==> Some(after.rows[k]) in batch)
            && after.index == s.index
            && (Coherent(s) ==> Coherent(after))
  {
    hide Seen, Put;
    if batch != [] {
      BulkMemory(s, batch[..|batch| - 1], readable, writable);
    }
  }

  /** When the batch succeeds, every address it names is in memory or its row is in storage. */
  lemma {:induction false} BulkComplete(s: State, batch: seq<Option<Row>>, readable: Key -> bool,
                                        writable: Key -> bool, i: nat)
    requires BulkAdd(s, batch, readable, writable).1
    requires i < |batch| && batch[i].Some? && batch[i].value.address != []
    ensures var after := BulkAdd(s, batch, readable, writable).0;
            batch[i].value.address in after.rows || Seen(after.db, readable, batch[i].value.addressBytes)
  {
    var n := |batch| - 1;
    if i < n {
      assert batch[..n][i] == batch[i];
      BulkComplete(s, batch[..n], readable, writable, i);
      var before, bytes := BulkAdd(s, batch[..n], readable, writable).0, batch[i].value.addressBytes;
      if Seen(before.db, readable, bytes) {
        SeenStays(before, batch[n], readable, writable, bytes);
      }
    }
  }

  /** A row that can be seen is never written over. */
  lemma SeenStays(s: State, entry: Option<Row>, readable: Key -> bool, writable: Key -> bool, b: Key)
    requires Seen(s.db, readable, b)
    ensures var after := AddOne(s, entry, readable, writable).0;
            after.db[b] == s.db[b] && Seen(after.db, readable, b)
  {
  }

  /** Record `i` of the batch is reached, added, and its row accepted. */
  ghost predicate WritesAt(s: State, batch: seq<Option<Row>>, readable: Key -> bool, writable: Key -> bool, i: nat)
    requires i < |batch|
    ensures WritesAt(s, batch, readable, writable, i) ==> batch[i].Some?
  {
    var (before, ok) := BulkAdd(s, batch[..i], readable, writable);
    ok && Adds(before, batch[i], readable) && Accepts(writable, batch[i].value.addressBytes)
  }

  /** Some record of the batch is written under `b`. */
  ghost predicate Writes(s: State, batch: seq<Option<Row>>, readable: Key -> bool, writable: Key -> bool, b: Key)
  {
    exists i :: 0 <= i < |batch| && WritesAt(s, batch, readable, writable, i) && batch[i].value.addressBytes == b
  }

  lemma WritesNext(s: State, batch: seq<Option<Row>>, readable: Key -> bool, writable: Key -> bool, b: Key)
    requires batch != []
    ensures var n := |batch| - 1;
            Writes(s, batch, readable, writable, b) <==>
            Writes(s, batch[..n], readable, writable, b)
            || (WritesAt(s, batch, readable, writable, n) && batch[n].value.addressBytes == b)
  {
    hide BulkAdd, Adds;
    var n := |batch| - 1;
    forall i | 0 <= i < n ensures batch[..n][i] == batch[i] && batch[..n][..i] == batch[..i] {
    }
    if Writes(s, batch[..n], readable, writable, b) {
      var i :| 0 <= i < n && WritesAt(s, batch[..n], readable, writable, i) && batch[..n][i].value.addressBytes == b;
      assert WritesAt(s, batch, readable, writable, i);
    }
    if Writes(s, batch, readable, writable, b) {
      var i :| 0 <= i < |batch| && WritesAt(s, batch, readable, writable, i) && batch[i].value.addressBytes == b;
      assert i < n ==> WritesAt(s, batch[..n], readable, writable, i);
    }
  }

  /**
   Which stored rows a batch replaces. A row that nothing is written under stays; a row that can be seen at the
   start is one of those. Under any other key the last accepted record of the batch is what is stored.
   */
  lemma {:induction false} BulkRow(s: State, batch: seq<Option<Row>>, readable: Key -> bool, writable: Key -> bool,
                                   b: Key)
    ensures var after := BulkAdd(s, batch, readable, writable).0;
            var written := Writes(s, batch, readable, writable, b);
            && (!written ==> (b in after.db <==> b in s.db) && (b in s.db ==> after.db[b] == s.db[b]))
            && (written ==> !Seen(s.db, readable, b) && b != [] && writable(b))
            && (written ==> b in after.db && Some(after.db[b]) in batch && after.db[b].addressBytes == b)
  {
    hide Writes, Seen;
    if batch == [] {
      NothingWritten(s, readable, writable, b);
    } else {
      var n := |batch| - 1;
      var front := batch[..n];
      BulkRow(s, front, readable, writable, b);
      WritesNext(s, batch, readable, writable, b);
      var before := BulkAdd(s, front, readable, writable).0;
      assert forall e :: e in front ==> e in batch;
      if Seen(s.db, readable, b) {
        SeenSame(s.db, before.db, readable, b);
      }
    }
  }

  lemma SeenSame(x: map<Key, Row>, y: map<Key, Row>, readable: Key -> bool, b: Key)
    requires Seen(x, readable, b) && b in y && y[b] == x[b]
    ensures Seen(y, readable, b)
  {
  }

  lemma NothingWritten(s: State, readable: Key -> bool, writable: Key -> bool, b: Key)
    ensures !Writes(s, [], readable, writable, b)
  {
  }

  /** A record that was added leaves the way free for a later one. */
  predicate LeavesRoom(earlier: Row, row: Row, readable: Key -> bool, writable: Key -> bool)
  {
    && Accepts(writable, earlier.addressBytes) && earlier.address != row.address
    && (earlier.addressBytes == row.addressBytes ==> !readable(row.addressBytes))
  }

  /** Record `i` is added, as the state before the batch and the records before `i` decide. */
  ghost predicate Chosen(s: State, batch: seq<Option<Row>>, readable: Key -> bool, writable: Key -> bool, i: nat)
    requires i < |batch|
    ensures Chosen(s, batch, readable, writable, i) ==> batch[i].Some?
    decreases i
  {
    && Adds(s, batch[i], readable)
    && forall j: nat :: j < i && Chosen(s, batch, readable, writable, j) ==>
         LeavesRoom(batch[j].value, batch[i].value, readable, writable)
  }

  ghost predicate ChosenAddress(s: State, batch: seq<Option<Row>>, readable: Key -> bool, writable: Key -> bool,
                                n: nat, a: Key)
    requires n <= |batch|
  {
    exists j: nat :: j < n && Chosen(s, batch, readable, writable, j) && batch[j].value.address == a
  }

  ghost predicate ChosenBytes(s: State, batch: seq<Option<Row>>, readable: Key -> bool, writable: Key -> bool,
                              n: nat, b: Key)
    requires n <= |batch|
  {
    exists j: nat :: j < n && Chosen(s, batch, readable, writable, j) && batch[j].value.addressBytes == b
  }

  ghost predicate ChosenAccepted(s: State, batch: seq<Option<Row>>, readable: Key -> bool, writable: Key -> bool,
                                 n: nat)
    requires n <= |batch|
  {
    forall j: nat :: j < n && Chosen(s, batch, readable, writable, j) ==> Accepts(writable, batch[j].value.addressBytes)
  }

  /** After `n` records: success, what is in memory and what can be seen are all given by the chosen ones. */
  ghost predicate Foreseen(s: State, batch: seq<Option<Row>>, readable: Key -> bool, writable: Key -> bool, n: nat)
    requires n <= |batch|
  {
    var (after, ok) := BulkAdd(s, batch[..n], readable, writable);
    && ok == ChosenAccepted(s, batch, readable, writable, n)
    && (ok ==> forall a :: a in after.rows <==> a in s.rows || ChosenAddress(s, batch, readable, writable, n, a))
    && (ok ==> forall b :: Seen(after.db, readable, b) <==>
                 Seen(s.db, readable, b) || (readable(b) && ChosenBytes(s, batch, readable, writable, n, b)))
  }

  lemma ChosenStep(s: State, batch: seq<Option<Row>>, readable: Key -> bool, writable: Key -> bool, i: nat)
    requires i < |batch| && Foreseen(s, batch, readable, writable, i)
    ensures Chosen(s, batch, readable, writable, i) <==>
            (var (before, ok) := BulkAdd(s, batch[..i], readable, writable);
             ok && Adds(before, batch[i], readable))
  {
    hide BulkAdd, Seen, Accepts;
    var (before, ok) := BulkAdd(s, batch[..i], readable, writable);
    if ok && Adds(before, batch[i], readable) {
      assert !ChosenAddress(s, batch, readable, writable, i, batch[i].value.address);
    }
  }

  lemma {:induction false} BulkForeseen(s: State, batch: seq<Option<Row>>, readable: Key -> bool,
                                        writable: Key -> bool, n: nat)
    requires n <= |batch|
    ensures Foreseen(s, batch, readable, writable, n)
  {
    if n == 0 {
      assert batch[..0] == [];
    } else {
      hide BulkAdd, Chosen, ChosenAddress, ChosenBytes, ChosenAccepted;
      BulkForeseen(s, batch, readable, writable, n - 1);
      ChosenStep(s, batch, readable, writable, n - 1);
      BulkNext(s, batch, n - 1, readable, writable);
      ChosenMore(s, batch, readable, writable, n);
    }
  }

  /** The sets of chosen records with one record more. */
  lemma ChosenMore(s: State, batch: seq<Option<Row>>, readable: Key -> bool, writable: Key -> bool, n: nat)
    requires 0 < n <= |batch|
    ensures var i := n - 1;
            var chosen := Chosen(s, batch, readable, writable, i);
            && (forall a :: ChosenAddress(s, batch, readable, writable, n, a) <==>
                  ChosenAddress(s, batch, readable, writable, i, a) || (chosen && batch[i].value.address == a))
            && (forall b :: ChosenBytes(s, batch, readable, writable, n, b) <==>
                  ChosenBytes(s, batch, readable, writable, i, b) || (chosen && batch[i].value.addressBytes == b))
            && (ChosenAccepted(s, batch, readable, writable, n) <==>
                  ChosenAccepted(s, batch, readable, writable, i)
                  && (chosen ==> Accepts(writable, batch[i].value.addressBytes)))
  {
    hide Accepts;
  }

  /**
   For every batch, told from the state before it: it succeeds exactly if the row of every chosen record is
   accepted, and a stored row is written over exactly if an accepted chosen record has its key.
   */
  lemma BulkReplaces(s: State, batch: seq<Option<Row>>, readable: Key -> bool, writable: Key -> bool, b: Key)
    ensures BulkAdd(s, batch, readable, writable).1 <==> ChosenAccepted(s, batch, readable, writable, |batch|)
    ensures Writes(s, batch, readable, writable, b) <==>
            Accepts(writable, b) && ChosenBytes(s, batch, readable, writable, |batch|, b)
  {
    hide BulkAdd, Adds, Chosen, Accepts, Foreseen;
    assert batch[..|batch|] == batch;
    forall i | 0 <= i < |batch|
      ensures Foreseen(s, batch, readable, writable, i)
      ensures WritesAt(s, batch, readable, writable, i) <==>
              Chosen(s, batch, readable, writable, i) && Accepts(writable, batch[i].value.addressBytes)
    {
      BulkForeseen(s, batch, readable, writable, i);
      ChosenStep(s, batch, readable, writable, i);
    }
    BulkSucceeds(s, batch, readable, writable);
  }

  lemma BulkSucceeds(s: State, batch: seq<Option<Row>>, readable: Key -> bool, writable: Key -> bool)
    ensures BulkAdd(s, batch, readable, writable).1 <==> ChosenAccepted(s, batch, readable, writable, |batch|)
  {
    hide BulkAdd, Chosen;
    assert batch[..|batch|] == batch;
    BulkForeseen(s, batch, readable, writable, |batch|);
  }

  /**
   For a batch of new records, all different, that the storage accepts: a stored row is written over exactly if it
   cannot be seen and some record of the batch has its key.
   */
  lemma {:induction false} DistinctReplaces(s: State, batch: seq<Option<Row>>, readable: Key -> bool,
                                        writable: Key -> bool, b: Key)
    requires forall i :: 0 <= i < |batch| ==> batch[i].Some? && batch[i].value.address != []
                                              && batch[i].value.address !in s.rows
                                              && Accepts(writable, batch[i].value.addressBytes)
    requires forall i, j :: 0 <= i < j < |batch| ==> batch[i].value.address != batch[j].value.address
    ensures BulkAdd(s, batch, readable, writable).1
    ensures Writes(s, batch, readable, writable, b) <==>
            !Seen(s.db, readable, b) && exists i :: 0 <= i < |batch| && batch[i].value.addressBytes == b
  {
    hide Writes, Seen;
    if batch == [] {
      NothingWritten(s, readable, writable, b);
    } else {
      var n := |batch| - 1;
      var front := batch[..n];
      assert forall i :: 0 <= i < n ==> front[i] == batch[i];
      DistinctReplaces(s, front, readable, writable, b);
      BulkMemory(s, front, readable, writable);
      BulkRow(s, front, readable, writable, b);
      WritesNext(s, batch, readable, writable, b);
      LastIsNew(s, batch, readable, writable);
      if batch[n].value.addressBytes == b && !Writes(s, front, readable, writable, b) {
        var before := BulkAdd(s, front, readable, writable).0;
        SameSeen(s.db, before.db, readable, b);
      }
    }
  }

  lemma LastIsNew(s: State, batch: seq<Option<Row>>, readable: Key -> bool, writable: Key -> bool)
    requires batch != [] && batch[|batch| - 1].Some? && batch[|batch| - 1].value.address !in s.rows
    requires forall i :: 0 <= i < |batch| ==> batch[i].Some?
    requires forall i :: 0 <= i < |batch| - 1 ==> batch[i].value.address != batch[|batch| - 1].value.address
    ensures batch[|batch| - 1].value.address !in BulkAdd(s, batch[..|batch| - 1], readable, writable).0.rows
  {
    NewAddresses(s, batch[..|batch| - 1], readable, writable, batch[|batch| - 1].value.address);
  }

  lemma {:induction false} NewAddresses(s: State, batch: seq<Option<Row>>, readable: Key -> bool,
                                        writable: Key -> bool, a: Key)
    requires a !in s.rows
    requires forall i :: 0 <= i < |batch| && batch[i].Some? ==> batch[i].value.address != a
    ensures a !in BulkAdd(s, batch, readable, writable).0.rows
  {
    if batch != [] {
      NewAddresses(s, batch[..|batch| - 1], readable, writable, a);
    }
  }

  lemma SameSeen(x: map<Key, Row>, y: map<Key, Row>, readable: Key -> bool, b: Key)
    requires b in x <==> b in y
    requires b in x ==> x[b] == y[b]
    ensures Seen(x, readable, b) <==> Seen(y, readable, b)
  {
  }

  /** A stored row with a blank address is not seen, and a new record under its key is written over it. */
  lemma BlankRowReplaced(blank: Row, row: Row)
    requires blank.address == [] && blank.addressBytes == row.addressBytes != [] && row.address != []
    ensures var s := State(map[], {}, {}, map[blank.addressBytes := blank]);
            BulkAdd(s, [Some(row)], _ => true, _ => true).0.db == map[row.addressBytes := row]
  {
    var batch := [Some(row)];
    assert batch[..0] == [];
  }

  /** A record new in memory whose row is accepted and can be read back is what is stored under its key. */
  lemma {:induction false} NewStored(s: State, batch: seq<Option<Row>>, readable: Key -> bool,
                                     writable: Key -> bool, k: Key)
    requires var after := BulkAdd(s, batch, readable, writable).0; k in after.rows && k !in s.rows
    ensures var after := BulkAdd(s, batch, readable, writable).0;
            var row := after.rows[k];
            && (BulkAdd(s, batch, readable, writable).1 ==> Accepts(writable, row.addressBytes))
            && (Accepts(writable, row.addressBytes) ==> row.addressBytes in after.db)
            && (Accepts(writable, row.addressBytes) && readable(row.addressBytes) ==>
                  after.db[row.addressBytes] == row)
  {
    hide Coherent;
    var n := |batch| - 1;
    var before := BulkAdd(s, batch[..n], readable, writable);
    if k in before.0.rows {
      NewStored(s, batch[..n], readable, writable, k);
      BulkMemory(s, batch[..n], readable, writable);
      var bytes := before.0.rows[k].addressBytes;
      if Seen(before.0.db, readable, bytes) {
        SeenStays(before.0, batch[n], readable, writable, bytes);
      }
    }
  }

  // ---------- generating ----------

  /** The record of a generated key pair: address string and address bytes. */
  function NewRow(g: (Key, Key)): Row { Row(g.0, g.1, 0, 0, 0, false, false) }

  /** Adds generated records up to the amount, the end of what is generated, or the first refused row. */
  function Refill(s: State, amount: int, generated: seq<(Key, Key)>, writable: Key -> bool): State
    decreases |generated|
  {
    if amount <= 0 || generated == [] then s else
      var after := Insert(s, NewRow(generated[0]), writable);
      if Accepts(writable, generated[0].1) then Refill(after, amount - 1, generated[1..], writable) else after
  }

  /** Generated addresses are new and all different. */
  predicate FreshKeys(generated: seq<(Key, Key)>, known: set<Key>)
  {
    && (forall i :: 0 <= i < |generated| ==> generated[i].0 !in known)
    && (forall i, j :: 0 <= i < j < |generated| ==> generated[i].0 != generated[j].0)
  }

  lemma FreshRest(s: State, generated: seq<(Key, Key)>, writable: Key -> bool)
    requires generated != [] && FreshKeys(generated, s.rows.Keys)
    ensures FreshKeys(generated[1..], Insert(s, NewRow(generated[0]), writable).rows.Keys)
  {
    forall i | 0 <= i < |generated| - 1 ensures generated[1..][i].0 !in s.rows[generated[0].0 := NewRow(generated[0])] {
      assert generated[1..][i] == generated[i + 1];
    }
  }

  lemma InsertFree(s: State, row: Row, writable: Key -> bool)
    requires Coherent(s) && row.address !in s.rows
    ensures Coherent(Insert(s, row, writable))
    ensures |Insert(s, row, writable).free| == |s.free| + if row.subscribed then 0 else 1
    ensures !row.subscribed ==> row.address in Insert(s, row, writable).free
  {
  }

  /** Records in memory stay as they are, and the pool stays coherent. */
  lemma {:induction false} RefillKeeps(s: State, amount: int, generated: seq<(Key, Key)>, writable: Key -> bool)
    requires Coherent(s) && FreshKeys(generated, s.rows.Keys)
    ensures var after := Refill(s, amount, generated, writable);
            && Coherent(after) && after.index == s.index && s.free <= after.free
            && (forall k :: k in s.rows ==> k in after.rows && after.rows[k] == s.rows[k])
    decreases |generated|
  {
    hide Coherent, FreshKeys, Refill;
    if amount <= 0 || generated == [] {
      RefillNothing(s, amount, generated, writable);
    } else {
      FirstIsNew(s, generated);
      InsertFree(s, NewRow(generated[0]), writable);
      FreshRest(s, generated, writable);
      RefillStep(s, amount, generated, writable);
      InsertKeeps(s, NewRow(generated[0]), writable);
      if Accepts(writable, generated[0].1) {
        RefillKeeps(Insert(s, NewRow(generated[0]), writable), amount - 1, generated[1..], writable);
      }
    }
  }

  lemma InsertKeeps(s: State, row: Row, writable: Key -> bool)
    requires row.address !in s.rows
    ensures var after := Insert(s, row, writable);
            && after.index == s.index && s.free <= after.free
            && (forall k :: k in s.rows ==> k in after.rows && after.rows[k] == s.rows[k])
  {
  }

  lemma FirstIsNew(s: State, generated: seq<(Key, Key)>)
    requires generated != [] && FreshKeys(generated, s.rows.Keys)
    ensures generated[0].0 !in s.rows
  {
  }

  lemma RefillStep(s: State, amount: int, generated: seq<(Key, Key)>, writable: Key -> bool)
    requires amount > 0 && generated != []
    ensures Refill(s, amount, generated, writable)
            == (var after := Insert(s, NewRow(generated[0]), writable);
                if Accepts(writable, generated[0].1) then Refill(after, amount - 1, generated[1..], writable)
                else after)
  {
  }

  function Least(amount: int, n: nat): nat { if amount <= 0 then 0 else if amount < n then amount else n }

  /** When every row is accepted, the free addresses grow by the amount, as far as keys are generated. */
  lemma {:induction false} RefillFills(s: State, amount: int, generated: seq<(Key, Key)>, writable: Key -> bool)
    requires Coherent(s) && FreshKeys(generated, s.rows.Keys)
    requires forall i :: 0 <= i < |generated| ==> Accepts(writable, generated[i].1)
    ensures var after := Refill(s, amount, generated, writable);
            && |after.free| == |s.free| + Least(amount, |generated|)
            && (forall i :: 0 <= i < Least(amount, |generated|) ==> generated[i].0 in after.free)
    decreases |generated|
  {
    hide Coherent, FreshKeys, Accepts, Insert, Refill;
    if amount <= 0 || generated == [] {
      RefillNothing(s, amount, generated, writable);
    } else {
      FirstIsNew(s, generated);
      InsertFree(s, NewRow(generated[0]), writable);
      FreshRest(s, generated, writable);
      RefillStep(s, amount, generated, writable);
      var after, rest := Insert(s, NewRow(generated[0]), writable), generated[1..];
      assert forall i :: 0 <= i < |rest| ==> rest[i] == generated[i + 1];
      RefillFills(after, amount - 1, rest, writable);
      RefillKeeps(after, amount - 1, rest, writable);
      var end := Refill(s, amount, generated, writable);
      forall i | 0 <= i < Least(amount, |generated|) ensures generated[i].0 in end.free {
        assert i > 0 ==> rest[i - 1] == generated[i];
      }
    }
  }

  /** Record `i` of the refill is new: free, with the generated keys, and nothing else set. */
  ghost predicate Generated(after: State, g: (Key, Key))
  {
    && g.0 in after.rows && g.0 in after.free
    && var r := after.rows[g.0];
       && r.address == g.0 && r.addressBytes == g.1
       && r.serviceId == 0 && r.userId == 0 && r.invoiceId == 0 && !r.watchOnly && !r.subscribed
  }

  /** Memory gains the first `n` generated records and keeps what it has. */
  ghost predicate Gains(s: State, after: State, generated: seq<(Key, Key)>, n: nat)
    requires n <= |generated|
  {
    && after.index == s.index
    && (forall i :: 0 <= i < n ==> Generated(after, generated[i]))
    && (forall k :: k in after.rows <==> k in s.rows || AmongFirst(generated, n, k))
    && (forall k :: k in s.rows ==> after.rows[k] == s.rows[k])
    && (forall k :: k in after.free <==> k in s.free || AmongFirst(generated, n, k))
  }

  /** Storage gains their accepted rows, as they are in memory, and every other row stays. */
  ghost predicate Stores(s: State, after: State, generated: seq<(Key, Key)>, n: nat, writable: Key -> bool)
    requires n <= |generated|
  {
    forall b ::
      if Accepts(writable, b) && BytesAmongFirst(generated, n, b) then StoresFirst(after, generated, n, b)
      else (b in after.db <==> b in s.db) && (b in s.db ==> after.db[b] == s.db[b])
  }

  /**
   The records a refill adds are the first `n` generated ones: as many as the amount and the keys allow, or up to
   the first row that is refused.
   */
  lemma {:induction false} RefillAdds(s: State, amount: int, generated: seq<(Key, Key)>, writable: Key -> bool)
      returns (n: nat)
    requires FreshKeys(generated, s.rows.Keys)
    ensures n <= Least(amount, |generated|)
    ensures forall i :: 0 <= i < n - 1 ==> Accepts(writable, generated[i].1)
    ensures n < Least(amount, |generated|) ==> n > 0 && !Accepts(writable, generated[n - 1].1)
    ensures var after := Refill(s, amount, generated, writable);
            Gains(s, after, generated, n) && Stores(s, after, generated, n, writable)
    decreases |generated|
  {
    hide FreshKeys, Refill, Accepts, Gains, Stores, Insert;
    if amount <= 0 || generated == [] {
      RefillNothing(s, amount, generated, writable);
      NothingGained(s, generated, writable);
      n := 0;
    } else {
      FirstIsNew(s, generated);
      FreshRest(s, generated, writable);
      RefillStep(s, amount, generated, writable);
      var g, rest := generated[0], generated[1..];
      var next := Insert(s, NewRow(g), writable);
      if Accepts(writable, g.1) {
        var m := RefillAdds(next, amount - 1, rest, writable);
        n := m + 1;
        var after := Refill(next, amount - 1, rest, writable);
        assert forall i :: 0 < i < n ==> generated[i] == rest[i - 1];
        GainsMore(s, after, generated, m, writable);
        StoresMore(s, after, generated, m, writable);
      } else {
        NothingGained(next, rest, writable);
        GainsMore(s, next, generated, 0, writable);
        StoresMore(s, next, generated, 0, writable);
        n := 1;
      }
    }
  }

  lemma NothingGained(s: State, generated: seq<(Key, Key)>, writable: Key -> bool)
    ensures Gains(s, s, generated, 0) && Stores(s, s, generated, 0, writable)
  {
  }

  lemma InsertAt(s: State, row: Row, writable: Key -> bool, k: Key)
    requires row.address !in s.rows
    ensures var next := Insert(s, row, writable);
            && next.index == s.index && (k in next.rows <==> k in s.rows || k == row.address)
            && (k in next.free <==> k in s.free || (k == row.address && !row.subscribed))
            && (k in s.rows ==> next.rows[k] == s.rows[k]) && next.rows[row.address] == row
  {
  }

  lemma GainsMore(s: State, after: State, generated: seq<(Key, Key)>, m: nat, writable: Key -> bool)
    requires m < |generated| && generated[0].0 !in s.rows
    requires Gains(Insert(s, NewRow(generated[0]), writable), after, generated[1..], m)
    ensures Gains(s, after, generated, m + 1)
  {
    hide AmongFirst, Put;
    FirstShift(generated, m);
    hide Insert;
    InsertAt(s, NewRow(generated[0]), writable, generated[0].0);
    forall k
      ensures k in after.rows <==> k in s.rows || AmongFirst(generated, m + 1, k)
      ensures k in after.free <==> k in s.free || AmongFirst(generated, m + 1, k)
      ensures k in s.rows ==> after.rows[k] == s.rows[k]
    {
      assert AmongFirst(generated, m + 1, k) <==> generated[0].0 == k || AmongFirst(generated[1..], m, k);
      InsertAt(s, NewRow(generated[0]), writable, k);
    }
    forall i | 0 <= i < m + 1 ensures Generated(after, generated[i]) {
      if i > 0 { assert generated[i] == generated[1..][i - 1]; }
    }
  }

  lemma StoresMore(s: State, after: State, generated: seq<(Key, Key)>, m: nat, writable: Key -> bool)
    requires m < |generated| && generated[0].0 !in s.rows
    requires var next := Insert(s, NewRow(generated[0]), writable);
             && Gains(next, after, generated[1..], m) && Stores(next, after, generated[1..], m, writable)
    ensures Stores(s, after, generated, m + 1, writable)
  {
    hide AmongFirst, Accepts, Insert;
    var g, rest := generated[0], generated[1..];
    var next := Insert(s, NewRow(g), writable);
    InsertAt(s, NewRow(g), writable, g.0);
    BytesShift(generated, m);
    forall b
      ensures if Accepts(writable, b) && BytesAmongFirst(generated, m + 1, b)
              then StoresFirst(after, generated, m + 1, b)
              else (b in after.db <==> b in s.db) && (b in s.db ==> after.db[b] == s.db[b])
    {
      InsertStored(s, NewRow(g), writable, b);
      if Accepts(writable, b) && BytesAmongFirst(rest, m, b) {
        var i :| 0 <= i < m && StoredAt(after, rest[i], b);
        assert StoredAt(after, generated[i + 1], b);
      } else if b == g.1 && Accepts(writable, b) {
        assert StoredAt(after, generated[0], b);
      }
    }
  }

  lemma InsertStored(s: State, row: Row, writable: Key -> bool, b: Key)
    ensures var next := Insert(s, row, writable);
            if b == row.addressBytes && Accepts(writable, b) then b in next.db && next.db[b] == row
            else (b in next.db <==> b in s.db) && (b in s.db ==> next.db[b] == s.db[b])
  {
  }

  ghost predicate BytesAmongFirst(generated: seq<(Key, Key)>, n: nat, b: Key)
    requires n <= |generated|
  {
    exists i :: 0 <= i < n && generated[i].1 == b
  }

  lemma BytesShift(generated: seq<(Key, Key)>, m: nat)
    requires m < |generated|
    ensures forall b ::
              BytesAmongFirst(generated, m + 1, b) <==> generated[0].1 == b || BytesAmongFirst(generated[1..], m, b)
  {
    var rest := generated[1..];
    assert BytesAmongFirst(generated, m + 1, generated[0].1);
    forall b | BytesAmongFirst(rest, m, b) ensures BytesAmongFirst(generated, m + 1, b) {
      var i :| 0 <= i < m && rest[i].1 == b;
      assert generated[i + 1] == rest[i];
    }
    forall b | BytesAmongFirst(generated, m + 1, b) && generated[0].1 != b ensures BytesAmongFirst(rest, m, b) {
      var i :| 0 <= i < m + 1 && generated[i].1 == b;
      assert rest[i - 1] == generated[i];
    }
  }

  ghost predicate AmongFirst(generated: seq<(Key, Key)>, n: nat, k: Key)
    requires n <= |generated|
  {
    exists i :: 0 <= i < n && generated[i].0 == k
  }

  /** The row under `b` is that of the record with the given keys. */
  ghost predicate StoredAt(after: State, g: (Key, Key), b: Key)
  {
    b == g.1 && b in after.db && g.0 in after.rows && after.db[b] == after.rows[g.0]
  }

  ghost predicate StoresFirst(after: State, generated: seq<(Key, Key)>, n: nat, b: Key)
    requires n <= |generated|
  {
    exists i :: 0 <= i < n && StoredAt(after, generated[i], b)
  }

  lemma FirstShift(generated: seq<(Key, Key)>, m: nat)
    requires m < |generated|
    ensures forall k :: AmongFirst(generated, m + 1, k) <==> generated[0].0 == k || AmongFirst(generated[1..], m, k)
  {
    var rest := generated[1..];
    assert AmongFirst(generated, m + 1, generated[0].0);
    forall k | AmongFirst(rest, m, k) ensures AmongFirst(generated, m + 1, k) {
      var i :| 0 <= i < m && rest[i].0 == k;
      assert generated[i + 1] == rest[i];
    }
    forall k | AmongFirst(generated, m + 1, k) && generated[0].0 != k ensures AmongFirst(rest, m, k) {
      var i :| 0 <= i < m + 1 && generated[i].0 == k;
      assert rest[i - 1] == generated[i];
    }
  }

  lemma RefillNothing(s: State, amount: int, generated: seq<(Key, Key)>, writable: Key -> bool)
    requires amount <= 0 || generated == []
    ensures Refill(s, amount, generated, writable) == s
  {
  }

  lemma RefillOne(s: State, keys: (Key, Key), writable: Key -> bool)
    ensures Refill(s, 1, [keys], writable) == Insert(s, NewRow(keys), writable)
  {
    hide Insert;
    RefillNothing(Insert(s, NewRow(keys), writable), 0, [], writable);
  }

  /** `checkFreeAddressPool`: an empty pool, or one short of free addresses, is filled up. */
  function Checked(s: State, enabled: bool, minFree: int, upTo: int, generated: seq<(Key, Key)>,
                   writable: Key -> bool): State
  {
    if enabled && (|s.rows| == 0 || |s.free| < minFree) then Refill(s, upTo - |s.free|, generated, writable) else s
  }

  /** A check that finds the pool short leaves exactly `upTo` free addresses, or as many as there were. */
  lemma CheckedFills(s: State, minFree: int, upTo: int, generated: seq<(Key, Key)>, writable: Key -> bool)
    requires Coherent(s) && FreshKeys(generated, s.rows.Keys) && (|s.rows| == 0 || |s.free| < minFree)
    requires upTo - |s.free| <= |generated|
    requires forall i :: 0 <= i < |generated| ==> Accepts(writable, generated[i].1)
    ensures |Checked(s, true, minFree, upTo, generated, writable).free| == if upTo > |s.free| then upTo else |s.free|
  {
    hide Coherent, FreshKeys, Accepts, Refill;
    RefillFills(s, upTo - |s.free|, generated, writable);
  }

  /** A check does nothing if it is switched off, or the pool is neither empty nor short, or there is nothing to add. */
  lemma CheckedLeaves(s: State, enabled: bool, minFree: int, upTo: int, generated: seq<(Key, Key)>,
                      writable: Key -> bool)
    requires FreshKeys(generated, s.rows.Keys)
    ensures Checked(s, enabled, minFree, upTo, generated, writable) == s <==>
            !enabled || (s.rows != map[] && |s.free| >= minFree) || upTo <= |s.free| || generated == []
  {
    hide FreshKeys, Refill, Accepts, Stores;
    assert |s.rows| == 0 <==> s.rows == map[];
    if upTo > |s.free| && generated != [] {
      var n := RefillAdds(s, upTo - |s.free|, generated, writable);
      var after := Refill(s, upTo - |s.free|, generated, writable);
      FirstIsNew(s, generated);
      assert Generated(after, generated[0]) && after.rows != s.rows;
    } else {
      RefillNothing(s, upTo - |s.free|, generated, writable);
    }
  }

  // ---------- updating and handing out ----------

  /** A record is changed, moved in or out of the free addresses, and saved. */
  function Updated(s: State, row: Row, writable: Key -> bool): State
  {
    State(s.rows[row.address := row], if row.subscribed then s.free - {row.address} else s.free + {row.address},
          s.index, Put(s.db, row, writable))
  }

  /** What a request for an address gets: nothing, an indexed address, or one the index does not know yet. */
  datatype Given = Nobody | Indexed(address: Key) | Lagging(address: Key)

  /** The operations on a pool, with what generation and storage do. */
  datatype Op =
    | Bulk(batch: seq<Option<Row>>, readable: Key -> bool, writable: Key -> bool)
    | Handout(serviceId: int, userId: int, invoiceId: int, watchOnly: bool, writable: Key -> bool)
    | Check(enabled: bool, minFree: int, upTo: int, generated: seq<(Key, Key)>, writable: Key -> bool)
    | Reindex

  /** Any free address may be given; only an indexed one is subscribed. */
  ghost predicate HandedOut(op: Op, s: State, s': State, given: Given)
    requires op.Handout?
  {
    match given
    case Nobody => s.free == {} && s' == s
    case Lagging(k) => k in s.free && k !in s.index && s' == s
    case Indexed(k) =>
      && k in s.free && k in s.index && k in s.rows
      && s' == Updated(s, Row(k, s.rows[k].addressBytes, op.serviceId, op.userId, op.invoiceId, op.watchOnly, true),
                       op.writable)
  }

  /** What a handout writes, in fields; every other record and row stays. */
  lemma HandoutFields(op: Op, s: State, s': State, k: Key)
    requires op.Handout? && HandedOut(op, s, s', Indexed(k))
    ensures var r, bytes := s'.rows[k], s.rows[k].addressBytes;
            && r.serviceId == op.serviceId && r.userId == op.userId && r.invoiceId == op.invoiceId
            && r.watchOnly == op.watchOnly && r.subscribed
            && r.address == k && r.addressBytes == bytes
            && (Accepts(op.writable, bytes) ==> bytes in s'.db && s'.db[bytes] == r)
            && (!Accepts(op.writable, bytes) ==> s'.db == s.db)
            && (forall b :: b != bytes ==> (b in s'.db <==> b in s.db) && (b in s.db ==> s'.db[b] == s.db[b]))
    ensures s'.rows.Keys == s.rows.Keys && s'.index == s.index
    ensures forall a :: a in s.rows && a != k ==> s'.rows[a] == s.rows[a]
    ensures forall a :: a in s'.free <==> a in s.free && a != k
  {
  }

  /** One step. Generated keys that are not new are outside the model, and nothing is done with them. */
  ghost predicate Stepped(op: Op, s: State, s': State, given: Given)
  {
    match op
    case Bulk(batch, readable, writable) => given == Nobody && s' == BulkAdd(s, batch, readable, writable).0
    case Handout(_, _, _, _, _) => HandedOut(op, s, s', given)
    case Check(enabled, minFree, upTo, generated, writable) =>
      given == Nobody && s' == if FreshKeys(generated, s.rows.Keys)
                               then Checked(s, enabled, minFree, upTo, generated, writable) else s
    case Reindex => given == Nobody && s' == s.(index := if |s.rows| == 0 then s.index else s.rows.Keys)
  }

  predicate Subscribed(s: State, k: Key) { k in s.rows && s.rows[k].subscribed }

  ghost predicate Keeps(s: State, s': State)
  {
    Coherent(s') && forall k :: Subscribed(s, k) ==> Subscribed(s', k)
  }

  lemma RowsKept(s: State, s': State)
    requires Coherent(s') && forall k :: k in s.rows ==> k in s'.rows && s'.rows[k] == s.rows[k]
    ensures Keeps(s, s')
  {
    hide Coherent;
  }

  lemma HandoutKeeps(op: Op, s: State, s': State, given: Given)
    requires op.Handout? && Coherent(s) && HandedOut(op, s, s', given)
    ensures Keeps(s, s')
    ensures given != Nobody ==> !Subscribed(s, given.address)
    ensures given.Indexed? ==> Subscribed(s', given.address)
  {
    hide Put;
  }

  lemma StepKeeps(op: Op, s: State, s': State, given: Given)
    requires Coherent(s) && Stepped(op, s, s', given)
    ensures Keeps(s, s')
    ensures given != Nobody ==> !Subscribed(s, given.address)
    ensures given.Indexed? ==> Subscribed(s', given.address)
  {
    hide Keeps, HandedOut, BulkAdd, Refill, FreshKeys, Subscribed;
    match op {
      case Bulk(batch, readable, writable) =>
        BulkMemory(s, batch, readable, writable);
        RowsKept(s, s');
      case Handout(_, _, _, _, _) =>
        HandoutKeeps(op, s, s', given);
      case Check(enabled, minFree, upTo, generated, writable) =>
        if FreshKeys(generated, s.rows.Keys) {
          RefillKeeps(s, upTo - |s.free|, generated, writable);
        }
        RowsKept(s, s');
      case Reindex =>
        RowsKept(s, s');
    }
  }

  /** A run: the states it passes and what every request gets. */
  ghost predicate Trace(ops: seq<Op>, states: seq<State>, given: seq<Given>)
  {
    && |states| == |ops| + 1 && |given| == |ops|
    && forall i :: 0 <= i < |ops| ==> Stepped(ops[i], states[i], states[i + 1], given[i])
  }

  lemma TraceNext(ops: seq<Op>, states: seq<State>, given: seq<Given>, op: Op, s: State, got: Given)
    requires Trace(ops, states, given) && Stepped(op, states[|ops|], s, got)
    ensures Trace(ops + [op], states + [s], given + [got])
  {
    hide Stepped;
  }

  lemma KeepsTwice(a: State, b: State, c: State)
    requires Keeps(a, b) && Keeps(b, c)
    ensures Keeps(a, c)
  {
  }

  lemma {:induction false} TraceKeeps(ops: seq<Op>, states: seq<State>, given: seq<Given>, i: nat, j: nat)
    requires Trace(ops, states, given) && i <= j <= |ops| && Coherent(states[i])
    ensures Keeps(states[i], states[j])
    decreases j
  {
    hide Stepped, Coherent, Subscribed;
    if i < j {
      TraceKeeps(ops, states, given, i, j - 1);
      StepKeeps(ops[j - 1], states[j - 1], states[j], given[j - 1]);
      KeepsTwice(states[i], states[j - 1], states[j]);
    }
  }

  /** Over any run: an address handed out while the index contains it is never handed out again. */
  lemma HandedOnce(ops: seq<Op>, states: seq<State>, given: seq<Given>, i: nat, j: nat)
    requires Trace(ops, states, given) && Coherent(states[0]) && i < j < |ops| && given[i].Indexed?
    ensures given[j] == Nobody || given[j].address != given[i].address
  {
    hide Stepped, Coherent, Subscribed;
    TraceKeeps(ops, states, given, 0, i);
    StepKeeps(ops[i], states[i], states[i + 1], given[i]);
    TraceKeeps(ops, states, given, i + 1, j);
    StepKeeps(ops[j], states[j], states[j + 1], given[j]);
  }

  /** An address handed out while the index lacks it can go to the next request as well. */
  lemma HandedTwice(op: Op, s: State, k: Key)
    requires op.Handout? && k in s.free && k !in s.index
    ensures Stepped(op, s, s, Lagging(k)) && Trace([op, op], [s, s, s], [Lagging(k), Lagging(k)])
  {
  }

  // ---------- restarts ----------

  /** A call, or a stop of the process and a start on the stored rows, which are read in some order. */
  datatype Phase = Call(op: Op) | Restart(rows: seq<Row>)

  ghost predicate Lists(rows: seq<Row>, db: map<Key, Row>)
  {
    forall r :: r in rows <==> Holds(db, r)
  }

  ghost predicate Holds(db: map<Key, Row>, r: Row) { exists b :: b in db && db[b] == r }

  ghost predicate LifeStep(phase: Phase, s: State, s': State, given: Given)
  {
    match phase
    case Call(op) => Stepped(op, s, s', given)
    case Restart(rows) => given == Nobody && Lists(rows, s.db) && s' == Restarted(rows, s.db)
  }

  /** A run over any number of starts. */
  ghost predicate Life(phases: seq<Phase>, states: seq<State>, given: seq<Given>)
  {
    && |states| == |phases| + 1 && |given| == |phases|
    && forall i :: 0 <= i < |phases| ==> LifeStep(phases[i], states[i], states[i + 1], given[i])
  }

  /** The address bytes of an address, and of no other. */
  ghost predicate Injective(bytesOf: Key -> Key)
  {
    forall a, a' :: bytesOf(a) == bytesOf(a') ==> a == a'
  }

  predicate CodedRow(row: Row, bytesOf: Key -> Key) { row.addressBytes == bytesOf(row.address) }

  /** Every record has the bytes of its address, and every row is stored under them. */
  ghost predicate Coded(s: State, bytesOf: Key -> Key)
  {
    && (forall k :: k in s.rows ==> CodedRow(s.rows[k], bytesOf))
    && (forall b :: b in s.db ==> s.db[b].addressBytes == b && CodedRow(s.db[b], bytesOf))
  }

  ghost predicate CodedPhase(phase: Phase, bytesOf: Key -> Key)
  {
    match phase
    case Call(Bulk(batch, _, _)) => forall i :: 0 <= i < |batch| && batch[i].Some? ==> CodedRow(batch[i].value, bytesOf)
    case Call(Check(_, _, _, generated, _)) =>
      forall i :: 0 <= i < |generated| ==> CodedRow(NewRow(generated[i]), bytesOf)
    case _ => true
  }

  /** Subscribed in memory and in storage. */
  ghost predicate Settled(s: State, bytesOf: Key -> Key, k: Key)
  {
    Subscribed(s, k) && bytesOf(k) in s.db && s.db[bytesOf(k)].subscribed
  }

  lemma InsertSettled(s: State, row: Row, writable: Key -> bool, bytesOf: Key -> Key, k: Key)
    requires Injective(bytesOf) && Coded(s, bytesOf) && CodedRow(row, bytesOf) && row.address !in s.rows
    ensures Coded(Insert(s, row, writable), bytesOf)
    ensures Settled(s, bytesOf, k) ==> Settled(Insert(s, row, writable), bytesOf, k)
  {
    hide Accepts;
  }

  lemma {:induction false} BulkSettled(s: State, batch: seq<Option<Row>>, readable: Key -> bool,
                                       writable: Key -> bool, bytesOf: Key -> Key, k: Key)
    requires Injective(bytesOf) && Coded(s, bytesOf)
    requires forall i :: 0 <= i < |batch| && batch[i].Some? ==> CodedRow(batch[i].value, bytesOf)
    ensures var after := BulkAdd(s, batch, readable, writable).0;
            Coded(after, bytesOf) && (Settled(s, bytesOf, k) ==> Settled(after, bytesOf, k))
  {
    hide Coded, Settled, Injective, Insert, CodedRow, Seen;
    if batch != [] {
      var n := |batch| - 1;
      BulkSettled(s, batch[..n], readable, writable, bytesOf, k);
      var (before, ok) := BulkAdd(s, batch[..n], readable, writable);
      if ok && Adds(before, batch[n], readable) {
        InsertSettled(before, batch[n].value, writable, bytesOf, k);
      }
    }
  }

  lemma {:induction false} RefillSettled(s: State, amount: int, generated: seq<(Key, Key)>, writable: Key -> bool,
                                         bytesOf: Key -> Key, k: Key)
    requires Injective(bytesOf) && Coded(s, bytesOf) && FreshKeys(generated, s.rows.Keys)
    requires forall i :: 0 <= i < |generated| ==> CodedRow(NewRow(generated[i]), bytesOf)
    ensures var after := Refill(s, amount, generated, writable);
            Coded(after, bytesOf) && (Settled(s, bytesOf, k) ==> Settled(after, bytesOf, k))
    decreases |generated|
  {
    hide Coded, Settled, Injective, Insert, CodedRow, FreshKeys, Refill;
    if amount <= 0 || generated == [] {
      RefillNothing(s, amount, generated, writable);
    } else {
      FirstIsNew(s, generated);
      FreshRest(s, generated, writable);
      RefillStep(s, amount, generated, writable);
      InsertSettled(s, NewRow(generated[0]), writable, bytesOf, k);
      if Accepts(writable, generated[0].1) {
        var rest := generated[1..];
        assert forall i :: 0 <= i < |rest| ==> rest[i] == generated[i + 1];
        RefillSettled(Insert(s, NewRow(generated[0]), writable), amount - 1, rest, writable, bytesOf, k);
      }
    }
  }

  lemma HandoutSettled(op: Op, s: State, s': State, given: Given, bytesOf: Key -> Key, k: Key)
    requires Injective(bytesOf) && Coherent(s) && Coded(s, bytesOf)
    requires op.Handout? && HandedOut(op, s, s', given)
    ensures Coded(s', bytesOf) && (Settled(s, bytesOf, k) ==> Settled(s', bytesOf, k))
    ensures given == Indexed(k) && Accepts(op.writable, bytesOf(k)) ==> Settled(s', bytesOf, k)
  {
    hide Accepts, Put, Updated;
    if given.Indexed? {
      HandoutFields(op, s, s', given.address);
    }
  }

  /** All rows of an address are the one under its bytes. */
  lemma {:induction false} LastStored(rows: seq<Row>, s: State, bytesOf: Key -> Key, k: Key)
    requires Injective(bytesOf) && Coded(s, bytesOf)
    requires forall r :: r in rows ==> Holds(s.db, r)
    ensures Last(rows, k).Some? ==> bytesOf(k) in s.db && Last(rows, k).value == s.db[bytesOf(k)]
    ensures HasFree(rows, k) ==> bytesOf(k) in s.db && !s.db[bytesOf(k)].subscribed
    ensures (exists r :: r in rows && r.address == k) ==> Last(rows, k).Some?
  {
    if rows != [] {
      var last := rows[|rows| - 1];
      assert last in rows;
      var b :| b in s.db && s.db[b] == last;
      assert forall r :: r in rows <==> r in rows[..|rows| - 1] || r == last;
      LastStored(rows[..|rows| - 1], s, bytesOf, k);
    }
  }

  /** What memory holds of an address after a start is the row under its bytes; it is free if that row is. */
  lemma RestartedAt(rows: seq<Row>, s: State, bytesOf: Key -> Key, k: Key)
    requires Injective(bytesOf) && Coded(s, bytesOf) && Lists(rows, s.db)
    ensures var after, b := Restarted(rows, s.db), bytesOf(k);
            && (k in after.rows <==> b in s.db && s.db[b].address == k)
            && (k in after.rows ==> after.rows[k] == s.db[b])
            && (k in after.free <==> b in s.db && s.db[b].address == k && !s.db[b].subscribed)
  {
    hide Last, HasFree, LoadedRows, LoadedFree;
    LoadedIs(rows, k);
    LastStored(rows, s, bytesOf, k);
    var b := bytesOf(k);
    if b in s.db && s.db[b].address == k {
      assert s.db[b] in rows;
      if !s.db[b].subscribed { LastFree(rows, k); }
    }
  }

  lemma RestartSettled(rows: seq<Row>, s: State, bytesOf: Key -> Key, k: Key)
    requires Injective(bytesOf) && Coded(s, bytesOf) && Lists(rows, s.db)
    ensures var after := Restarted(rows, s.db);
            && Coherent(after) && Coded(after, bytesOf)
            && (Settled(s, bytesOf, k) ==> Settled(after, bytesOf, k))
  {
    hide LoadedRows, LoadedFree, Lists;
    forall a ensures var after, b := Restarted(rows, s.db), bytesOf(a);
                     && (a in after.rows <==> b in s.db && s.db[b].address == a)
                     && (a in after.rows ==> after.rows[a] == s.db[b])
                     && (a in after.free <==> b in s.db && s.db[b].address == a && !s.db[b].subscribed) {
      RestartedAt(rows, s, bytesOf, a);
    }
  }

  lemma LifeStepKeeps(phase: Phase, s: State, s': State, given: Given, bytesOf: Key -> Key, k: Key)
    requires Injective(bytesOf) && Coherent(s) && Coded(s, bytesOf)
    requires LifeStep(phase, s, s', given) && CodedPhase(phase, bytesOf)
    ensures Coherent(s') && Coded(s', bytesOf)
    ensures Settled(s, bytesOf, k) ==> Settled(s', bytesOf, k)
    ensures given != Nobody ==> !Subscribed(s, given.address)
    ensures phase.Call? && phase.op.Handout? && given == Indexed(k) && Accepts(phase.op.writable, bytesOf(k))
            ==> Settled(s', bytesOf, k)
  {
    hide Coherent, Coded, Settled, Injective, BulkAdd, Refill, FreshKeys, HandedOut, Restarted, Accepts, CodedRow;
    match phase
    case Restart(rows) =>
      RestartSettled(rows, s, bytesOf, k);
    case Call(op) =>
      StepKeeps(op, s, s', given);
      match op {
        case Bulk(batch, readable, writable) =>
          BulkSettled(s, batch, readable, writable, bytesOf, k);
        case Handout(_, _, _, _, _) =>
          HandoutSettled(op, s, s', given, bytesOf, k);
        case Check(enabled, minFree, upTo, generated, writable) =>
          if FreshKeys(generated, s.rows.Keys) {
            RefillSettled(s, upTo - |s.free|, generated, writable, bytesOf, k);
          }
        case Reindex =>
          ReindexSettled(s, s', bytesOf, k);
      }
  }

  lemma ReindexSettled(s: State, s': State, bytesOf: Key -> Key, k: Key)
    requires Coded(s, bytesOf) && s'.rows == s.rows && s'.db == s.db
    ensures Coded(s', bytesOf) && (Settled(s, bytesOf, k) ==> Settled(s', bytesOf, k))
  {
  }

  lemma {:induction false} LifeKeeps(phases: seq<Phase>, states: seq<State>, given: seq<Given>, bytesOf: Key -> Key,
                                     k: Key, i: nat, j: nat)
    requires Life(phases, states, given) && i <= j <= |phases|
    requires Injective(bytesOf) && forall p :: p in phases ==> CodedPhase(p, bytesOf)
    requires Coherent(states[i]) && Coded(states[i], bytesOf)
    ensures Coherent(states[j]) && Coded(states[j], bytesOf)
    ensures Settled(states[i], bytesOf, k) ==> Settled(states[j], bytesOf, k)
    decreases j
  {
    hide LifeStep, Coherent, Coded, Settled, CodedPhase, Injective;
    if i < j {
      LifeKeeps(phases, states, given, bytesOf, k, i, j - 1);
      LifeStepKeeps(phases[j - 1], states[j - 1], states[j], given[j - 1], bytesOf, k);
    }
  }

  /**
   Over any run, with starts anywhere in it: an address handed out while the index contained it, whose row was
   accepted, is never handed out again.
   */
  lemma HandedOnceStored(phases: seq<Phase>, states: seq<State>, given: seq<Given>, bytesOf: Key -> Key,
                         i: nat, j: nat)
    requires Life(phases, states, given) && i < j < |phases|
    requires Injective(bytesOf) && forall p :: p in phases ==> CodedPhase(p, bytesOf)
    requires Coherent(states[0]) && Coded(states[0], bytesOf)
    requires phases[i].Call? && phases[i].op.Handout? && given[i].Indexed?
    requires Accepts(phases[i].op.writable, bytesOf(given[i].address))
    ensures given[j] == Nobody || given[j].address != given[i].address
  {
    hide LifeStep, Coherent, Coded, CodedPhase, Injective, Accepts;
    var k := given[i].address;
    LifeKeeps(phases, states, given, bytesOf, k, 0, i);
    LifeStepKeeps(phases[i], states[i], states[i + 1], given[i], bytesOf, k);
    LifeKeeps(phases, states, given, bytesOf, k, i + 1, j);
    LifeStepKeeps(phases[j], states[j], states[j + 1], given[j], bytesOf, k);
  }

  /** A start after a handout brings the address back exactly if its row was refused and the stored one is free. */
  lemma BackAfterRestart(op: Op, s: State, s': State, k: Key, rows: seq<Row>, bytesOf: Key -> Key)
    requires Injective(bytesOf) && Coherent(s) && Coded(s, bytesOf)
    requires op.Handout? && HandedOut(op, s, s', Indexed(k)) && Lists(rows, s'.db)
    ensures k in Restarted(rows, s'.db).free <==>
            !Accepts(op.writable, bytesOf(k)) && bytesOf(k) in s.db && !s.db[bytesOf(k)].subscribed
  {
    hide Restarted, Lists, Accepts;
    HandoutSettled(op, s, s', Indexed(k), bytesOf, k);
    RestartedAt(rows, s', bytesOf, k);
  }

  /** The row of a handout is refused, the process starts again, and the address goes to the next request. */
  lemma RefusedHandedTwice(k: Key, bytes: Key, writable: Key -> bool)
    requires !Accepts(writable, bytes)
    ensures var row := Row(k, bytes, 0, 0, 0, false, false);
            var s := State(map[k := row], {k}, {k}, map[bytes := row]);
            var ask := Call(Handout(1, 1, 1, false, writable));
            && Coherent(s)
            && exists states ::
                 Life([ask, Restart([row]), ask], states, [Indexed(k), Nobody, Indexed(k)]) && states[0] == s
  {
    var row := Row(k, bytes, 0, 0, 0, false, false);
    var s := State(map[k := row], {k}, {k}, map[bytes := row]);
    var op := Handout(1, 1, 1, false, writable);
    var s' := Updated(s, Row(k, bytes, 1, 1, 1, false, true), writable);
    assert s.rows[k] == row && s.db[bytes] == row && s'.db == s.db;
    assert [row][..0] == [];
    assert LoadedRows([row]) == LoadedRows([])[k := row] == map[k := row];
    assert LoadedFree([row]) == LoadedFree([]) + {k} == {k};
    assert Restarted([row], s'.db) == s;
    assert Holds(s.db, row) && forall r :: r in [row] <==> r == row;
    assert HandedOut(op, s, s', Indexed(k));
    var states := [s, s', s, s'];
    assert Life([Call(op), Restart([row]), Call(op)], states, [Indexed(k), Nobody, Indexed(k)]);
  }
}
