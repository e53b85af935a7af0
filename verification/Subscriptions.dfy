/**
 Confirmation tracking of transactions (subscriptions/event_block.go, event_transaction.go,
 transactionstorage.go, event_process.go): a store of records, two kinds of events, and the notifications that
 processing them queues.
 */
module Subscriptions {
  import opened Wrappers

  type TxId = string

  /** A reported transfer; `blockNum` is -1 for one in the memory pool. */
  datatype TransferInfo = TransferInfo(
    txId: TxId, timestamp: int, blockNum: int, success: bool, transfer: bool, nativeCoin: bool, symbol: string,
    smartContract: bool, from: string, to: string, amount: int, token: string, tokenSymbol: string, fee: int,
    inPool: bool, confirmed: bool, chainSpecificData: seq<int>)
  {
    /** The fields that `isEqual` compares. */
    predicate SameAs(that: TransferInfo)
    {
      && txId == that.txId && blockNum == that.blockNum && success == that.success && transfer == that.transfer
      && nativeCoin == that.nativeCoin && symbol == that.symbol && smartContract == that.smartContract
      && from == that.from && to == that.to && amount == that.amount && token == that.token
      && tokenSymbol == that.tokenSymbol && fee == that.fee && inPool == that.inPool
    }
  }

  /** A stored record; `ignore` marks the pool's own transfers. */
  datatype Record = Record(info: TransferInfo, ignore: bool)

  type Store = map<TxId, Record>

  /** A queued notification: what it says of the transfer, and the number of confirmations. */
  datatype Note = Note(info: TransferInfo, confirmations: int)

  /** An event, with what the storage accepts while it is processed and the configured number of confirmations. */
  datatype Event =
    | Transfer(info: TransferInfo, writable: bool)
    | Block(num: int, min: int, accepts: TxId -> bool)

  // ---------- one event ----------

  /** The store and the notification after a transfer event. */
  function TransferStep(store: Store, info: TransferInfo, writable: bool): (Store, Option<Note>)
  {
    var first := if info.inPool then 0 else 1;
    if info.txId !in store then
      if writable then (store[info.txId := Record(info, false)], Some(Note(info, first))) else (store, None)
    else
      var r := store[info.txId];
      if r.info.inPool && !info.inPool && !r.ignore then
        var mined := r.info.(blockNum := info.blockNum, timestamp := info.timestamp, inPool := false);
        (if writable then store[info.txId := Record(mined, false)] else store, Some(Note(mined, 1)))
      else (store, None)
  }

  /** The block below which a transaction counts as confirmed. */
  function ConfirmedBlock(num: int, min: int): int
  {
    if num - (min - 1) < 1 then 1 else num - (min - 1)
  }

  predicate Open(r: Record) { !r.info.confirmed && !r.info.inPool }

  predicate Counted(r: Record, num: int, min: int)
  {
    Open(r) && r.info.blockNum > ConfirmedBlock(num, min) && r.info.blockNum < num
  }

  predicate Due(r: Record, num: int, min: int)
  {
    Open(r) && r.info.blockNum < ConfirmedBlock(num, min)
  }

  /** One record after a block event, and its notification. */
  function BlockStep(r: Record, num: int, min: int, writable: bool): (Record, Option<Note>)
  {
    var done := r.info.(confirmed := true);
    if Counted(r, num, min) then
      (r, if r.ignore then None else Some(Note(r.info, num - r.info.blockNum + 1)))
    else if Due(r, num, min) && writable then
      (Record(done, r.ignore), if r.ignore then None else Some(Note(done, num - r.info.blockNum)))
    else (r, None)
  }

  function BlockStore(store: Store, num: int, min: int, accepts: TxId -> bool): Store
  {
    map t | t in store :: BlockStep(store[t], num, min, accepts(t)).0
  }

  function StoreAfter(store: Store, e: Event): Store
  {
    match e
    case Transfer(info, writable) => TransferStep(store, info, writable).0
    case Block(num, min, accepts) => BlockStore(store, num, min, accepts)
  }

  /** What an event queues for transaction `t`. */
  function NoteFor(store: Store, e: Event, t: TxId): (notes: seq<Note>)
    ensures |notes| <= 1
  {
    var note := match e
      case Transfer(info, writable) => if info.txId == t then TransferStep(store, info, writable).1 else None
      case Block(num, min, accepts) => if t in store then BlockStep(store[t], num, min, accepts(t)).1 else None;
    if note.Some? then [note.value] else []
  }

  // ---------- what an event does, field by field ----------

  /** The fields of two transfers agree, except perhaps block number, timestamp and the mark of the memory pool. */
  predicate SameTransfer(a: TransferInfo, b: TransferInfo)
  {
    && a.txId == b.txId && a.success == b.success && a.transfer == b.transfer && a.nativeCoin == b.nativeCoin
    && a.symbol == b.symbol && a.smartContract == b.smartContract && a.from == b.from && a.to == b.to
    && a.amount == b.amount && a.token == b.token && a.tokenSymbol == b.tokenSymbol && a.fee == b.fee
    && a.chainSpecificData == b.chainSpecificData
  }

  /**
   A transaction reported for the first time: stored as reported and not ignored, and queued as stored, with no
   confirmation exactly if it is in the memory pool. If the storage refuses it, nothing happens.
   */
  lemma NewReport(store: Store, info: TransferInfo, writable: bool)
    requires info.txId !in store
    ensures var e, t := Transfer(info, writable), info.txId;
            var after, notes := StoreAfter(store, e), NoteFor(store, e, t);
            if !writable then after == store && notes == []
            else
              && t in after && after[t].info == info && !after[t].ignore
              && |notes| == 1 && notes[0].info == info && notes[0].confirmations == (if info.inPool then 0 else 1)
  {
  }

  /**
   A transaction that leaves the memory pool: the record and the notification have the reported block number and
   timestamp, are out of the pool, and are otherwise as stored; the count is 1. A refused save loses the record
   but not the notification.
   */
  lemma LeavesPool(store: Store, info: TransferInfo, writable: bool)
    requires info.txId in store && store[info.txId].info.txId == info.txId
    requires store[info.txId].info.inPool && !info.inPool && !store[info.txId].ignore
    ensures var e, t := Transfer(info, writable), info.txId;
            var after, notes, was := StoreAfter(store, e), NoteFor(store, e, t), store[t].info;
            && |notes| == 1
            && var said := notes[0].info;
               && SameTransfer(said, was) && said.confirmed == was.confirmed && !said.inPool
               && said.blockNum == info.blockNum && said.timestamp == info.timestamp
               && notes[0].confirmations == 1
               && t in after && !after[t].ignore && after[t].info == if writable then said else was
  {
  }

  /** Every other report changes nothing; and no report touches another transaction. */
  lemma OtherReports(store: Store, info: TransferInfo, writable: bool, t: TxId)
    ensures var e := Transfer(info, writable);
            var known := info.txId in store;
            var moved := known && store[info.txId].info.inPool && !info.inPool && !store[info.txId].ignore;
            && (known && !moved ==> StoreAfter(store, e) == store && NoteFor(store, e, t) == [])
            && (t != info.txId ==>
                  && NoteFor(store, e, t) == [] && (t in StoreAfter(store, e) <==> t in store)
                  && (t in store ==> StoreAfter(store, e)[t] == store[t]))
  {
  }

  /**
   One record at a block: only the confirmed flag can change, and it rises exactly if the record is below the bound
   and its save is accepted. A notification says what the record then is. Below the bound it has the distance to
   the block as count, above it and before this block one more; ignored records get none.
   */
  lemma AtBlock(store: Store, num: int, min: int, accepts: TxId -> bool, t: TxId)
    requires t in store
    ensures var e, bound := Block(num, min, accepts), if num > min then num - min + 1 else 1;
            var was, now, notes := store[t], StoreAfter(store, e)[t], NoteFor(store, e, t);
            var waits, n := !was.info.inPool && !was.info.confirmed, was.info.blockNum;
            && now.ignore == was.ignore && SameTransfer(now.info, was.info)
            && now.info.blockNum == n && now.info.timestamp == was.info.timestamp && now.info.inPool == was.info.inPool
            && (now.info.confirmed <==> was.info.confirmed || (waits && n < bound && accepts(t)))
            && (notes != [] <==> !was.ignore && waits && ((n < bound && accepts(t)) || bound < n < num))
            && (notes != [] ==>
                  notes[0].info == now.info && notes[0].confirmations == if n < bound then num - n else num - n + 1)
  {
  }

  lemma OnlyStored(store: Store, num: int, min: int, accepts: TxId -> bool, t: TxId)
    requires t !in store
    ensures t !in StoreAfter(store, Block(num, min, accepts)) && NoteFor(store, Block(num, min, accepts), t) == []
  {
  }

  // ---------- runs ----------

  function Run(store: Store, events: seq<Event>): Store
  {
    if events == [] then store else StoreAfter(Run(store, events[..|events| - 1]), events[|events| - 1])
  }

  /** What a run queues for transaction `t`, in order. */
  function Notes(store: Store, events: seq<Event>, t: TxId): seq<Note>
  {
    if events == [] then [] else
      var before := events[..|events| - 1];
      Notes(store, before, t) + NoteFor(Run(store, before), events[|events| - 1], t)
  }

  /** Reported transfers are never confirmed already. */
  predicate Unconfirmed(events: seq<Event>)
  {
    forall i :: 0 <= i < |events| && events[i].Transfer? ==> !events[i].info.confirmed
  }

  predicate NoConfirmedInPool(store: Store)
  {
    forall t :: t in store ==> !(store[t].info.inPool && store[t].info.confirmed)
  }

  /** Records stay; one out of the pool stays out; one confirmed stays confirmed; a mark to ignore stays. */
  predicate Forward(a: Store, b: Store, t: TxId)
  {
    t in a ==>
      && t in b && a[t].ignore == b[t].ignore
      && (!a[t].info.inPool ==> !b[t].info.inPool)
      && (a[t].info.confirmed ==> b[t].info.confirmed)
  }

  lemma StepForward(store: Store, e: Event, t: TxId)
    requires NoConfirmedInPool(store) && (e.Transfer? ==> !e.info.confirmed)
    ensures Forward(store, StoreAfter(store, e), t) && NoConfirmedInPool(StoreAfter(store, e))
    ensures t !in store && t in StoreAfter(store, e) ==>
              !StoreAfter(store, e)[t].ignore && !StoreAfter(store, e)[t].info.confirmed
  {
  }

  lemma {:induction false} RunForward(store: Store, events: seq<Event>, t: TxId)
    requires NoConfirmedInPool(store) && Unconfirmed(events)
    ensures Forward(store, Run(store, events), t) && NoConfirmedInPool(Run(store, events))
  {
    if events != [] {
      var before := events[..|events| - 1];
      RunForward(store, before, t);
      StepForward(Run(store, before), events[|events| - 1], t);
    }
  }

  /** How many steps of a run take `t` out of the pool. */
  function Falls(store: Store, events: seq<Event>, t: TxId): nat
  {
    if events == [] then 0 else
      var before := Run(store, events[..|events| - 1]);
      var after := Run(store, events);
      Falls(store, events[..|events| - 1], t)
      + if t in before && t in after && before[t].info.inPool && !after[t].info.inPool then 1 else 0
  }

  /** How many steps of a run make `t` confirmed. */
  function Rises(store: Store, events: seq<Event>, t: TxId): nat
  {
    if events == [] then 0 else
      var before := Run(store, events[..|events| - 1]);
      var after := Run(store, events);
      Rises(store, events[..|events| - 1], t)
      + if t in after && after[t].info.confirmed && (t !in before || !before[t].info.confirmed) then 1 else 0
  }

  function ConfirmedNotes(notes: seq<Note>): nat
  {
    if notes == [] then 0 else
      ConfirmedNotes(notes[..|notes| - 1]) + if notes[|notes| - 1].info.confirmed then 1 else 0
  }

  predicate Confirmed(store: Store, t: TxId) { t in store && store[t].info.confirmed }

  predicate OutOfPool(store: Store, t: TxId) { t in store && !store[t].info.inPool }

  predicate Ignored(store: Store, t: TxId) { t in store && store[t].ignore }

  function Bit(b: bool): nat { if b then 1 else 0 }

  /** One event queues a confirmed notification exactly when it makes an unignored record confirmed. */
  lemma StepConfirms(store: Store, e: Event, t: TxId)
    requires NoConfirmedInPool(store) && (e.Transfer? ==> !e.info.confirmed)
    ensures ConfirmedNotes(NoteFor(store, e, t))
            == Bit(!Confirmed(store, t) && Confirmed(StoreAfter(store, e), t) && !Ignored(store, t))
  {
    var notes := NoteFor(store, e, t);
    assert notes == [] || notes[..0] == [];
  }

  lemma NotesAppend(a: seq<Note>, b: seq<Note>)
    requires |b| <= 1
    ensures ConfirmedNotes(a + b) == ConfirmedNotes(a) + ConfirmedNotes(b)
  {
    if b == [] {
      assert a + b == a;
    } else {
      assert (a + b)[..|a + b| - 1] == a && b[..0] == [];
    }
  }

  /**
   Over any run, whatever the storage accepts: a record leaves the pool at most once and becomes confirmed at most
   once, and one confirmed notification is queued exactly if it becomes confirmed and is not to be ignored.
   */
  lemma {:induction false} ConfirmedOnce(store: Store, events: seq<Event>, t: TxId)
    requires NoConfirmedInPool(store) && Unconfirmed(events)
    ensures Falls(store, events, t) <= Bit(!OutOfPool(store, t) && OutOfPool(Run(store, events), t)) <= 1
    ensures Rises(store, events, t) == Bit(!Confirmed(store, t) && Confirmed(Run(store, events), t)) <= 1
    ensures ConfirmedNotes(Notes(store, events, t))
            == if Ignored(Run(store, events), t) then 0 else Rises(store, events, t)
  {
    hide StoreAfter, NoteFor;
    if events != [] {
      var before, e := events[..|events| - 1], events[|events| - 1];
      ConfirmedOnce(store, before, t);
      RunForward(store, before, t);
      StepForward(Run(store, before), e, t);
      StepConfirms(Run(store, before), e, t);
      NotesAppend(Notes(store, before, t), NoteFor(Run(store, before), e, t));
      assert Run(store, events) == StoreAfter(Run(store, before), e);
    }
  }

  // ---------- consecutive blocks ----------

  function BlockCount(events: seq<Event>): nat
  {
    if events == [] then 0 else
      BlockCount(events[..|events| - 1]) + Bit(events[|events| - 1].Block?)
  }

  /** The block events among `events` are `first`, `first + 1` and so on; the storage accepts every write for `t`. */
  ghost predicate Consecutive(events: seq<Event>, first: int, min: int, t: TxId)
  {
    events != [] ==>
      var before, e := events[..|events| - 1], events[|events| - 1];
      && Consecutive(before, first, min, t)
      && (e.Block? ==> e.num == first + BlockCount(before) && e.min == min && e.accepts(t))
  }

  /** Confirmations and the confirmed flag of every notification. */
  function Counts(notes: seq<Note>): seq<(int, bool)>
  {
    seq(|notes|, i requires 0 <= i < |notes| => (notes[i].confirmations, notes[i].info.confirmed))
  }

  function Upto(a: int, b: int): nat { if a <= 0 || b <= 0 then 0 else if a < b then a else b }

  /**
   What is queued in the `k` blocks after the one that holds a transaction, block `n`: the counts 2, 3, ... min - 1
   and, at the min-th block, the count min with the confirmed flag. In block 1 the counts between are left out.
   */
  function Later(n: int, min: nat, k: int): seq<(int, bool)>
  {
    var between: seq<(int, bool)> := seq(if n >= 2 then Upto(k, min - 2) else 0, i => (i + 2, false));
    between + if k >= min then [(min, true)] else []
  }

  /** A record of a transaction in block `n` that is still to be confirmed. */
  predicate Mined(r: Record, n: int)
  {
    Open(r) && !r.ignore && r.info.blockNum == n
  }

  /** The notification of one block for a transaction in block `n`, by the distance between the two. */
  lemma BlockDistance(store: Store, e: Event, t: TxId, n: int, min: nat)
    requires n >= 1 && min >= 1 && e.Block? && e.min == min && e.accepts(t)
    requires t in store && Mined(store[t], n)
    ensures var k := e.num - n;
            && Counts(NoteFor(store, e, t)) == (if n >= 2 && 1 <= k <= min - 2 then [(k + 1, false)]
                                                else if k >= min then [(k, true)] else [])
            && StoreAfter(store, e)[t]
               == if k >= min then Record(store[t].info.(confirmed := true), false) else store[t]
  {
  }

  lemma LaterNext(n: int, min: nat, k: int)
    requires min >= 1 && k <= min
    ensures Later(n, min, k) == Later(n, min, k - 1) + if n >= 2 && 1 <= k <= min - 2 then [(k + 1, false)]
                                                      else if k == min then [(k, true)] else []
  {
  }

  lemma LaterDone(n: int, min: nat, k: int)
    requires min >= 1 && k > min
    ensures Later(n, min, k) == Later(n, min, k - 1)
  {
  }

  lemma CountsAppend(a: seq<Note>, b: seq<Note>)
    ensures Counts(a + b) == Counts(a) + Counts(b)
  {
  }

  /** A transaction event does nothing to a transaction that is already in a block. */
  lemma TransferSkips(store: Store, e: Event, t: TxId)
    requires e.Transfer? && t in store && !store[t].info.inPool
    ensures t in StoreAfter(store, e) && StoreAfter(store, e)[t] == store[t] && NoteFor(store, e, t) == []
  {
  }

  /** A block event does nothing to a confirmed record. */
  lemma BlockSkips(store: Store, e: Event, t: TxId)
    requires e.Block? && t in store && store[t].info.confirmed
    ensures t in StoreAfter(store, e) && StoreAfter(store, e)[t] == store[t] && NoteFor(store, e, t) == []
  {
  }

  /** The record and the notifications `k` blocks after block `n`, with any transfer events in between. */
  lemma {:induction false} LaterBlocks(store: Store, events: seq<Event>, first: int, n: int, min: nat, t: TxId)
    requires n >= 1 && min >= 1 && first <= n + 1 && t in store && Mined(store[t], n)
    requires Consecutive(events, first, min, t)
    ensures var k, after := first + BlockCount(events) - 1 - n, Run(store, events);
            && t in after
            && after[t] == (if k >= min then Record(store[t].info.(confirmed := true), false) else store[t])
            && Counts(Notes(store, events, t)) == Later(n, min, k)
  {
    hide StoreAfter, NoteFor, Later, Counts;
    NoCounts();
    if events == [] {
      NothingYet(n, min, first - 1 - n);
    } else {
      var before, e := events[..|events| - 1], events[|events| - 1];
      var k := first + BlockCount(events) - 1 - n;
      LaterBlocks(store, before, first, n, min, t);
      var s := Run(store, before);
      CountsAppend(Notes(store, before, t), NoteFor(s, e, t));
      if e.Transfer? {
        TransferSkips(s, e, t);
      } else if k > min {
        LaterDone(n, min, k);
        BlockSkips(s, e, t);
      } else {
        LaterNext(n, min, k);
        BlockDistance(s, e, t, n, min);
        StaysStored(s, e, t);
      }
    }
  }

  lemma StaysStored(store: Store, e: Event, t: TxId)
    requires t in store
    ensures t in StoreAfter(store, e)
  {
  }

  lemma NothingYet(n: int, min: nat, k: int)
    requires k <= 0 && min >= 1
    ensures Later(n, min, k) == []
  {
  }

  lemma NoCounts()
    ensures Counts([]) == []
  {
  }

  lemma {:induction false} RunCons(store: Store, e: Event, events: seq<Event>, t: TxId)
    ensures Run(store, [e] + events) == Run(StoreAfter(store, e), events)
    ensures Notes(store, [e] + events, t) == NoteFor(store, e, t) + Notes(StoreAfter(store, e), events, t)
  {
    hide StoreAfter, NoteFor, Run, Notes;
    var all := [e] + events;
    EmptyRun(store, t);
    EmptyRun(StoreAfter(store, e), t);
    assert all[..1] == [e] && [e][..0] == [] && all[..|all|] == all;
    RunNext(store, all, |events|);
    if events == [] {
    } else {
      var n := |events| - 1;
      RunCons(store, e, events[..n], t);
      RunNext(StoreAfter(store, e), events, n);
      assert all[..|events|] == [e] + events[..n] && events[..|events|] == events;
    }
  }

  lemma EmptyRun(store: Store, t: TxId)
    ensures Run(store, []) == store && Notes(store, [], t) == []
  {
  }

  lemma FirstReport(store: Store, info: TransferInfo)
    requires info.txId in store ==> store[info.txId].info.inPool && !store[info.txId].ignore
    requires NoConfirmedInPool(store) && !info.inPool && !info.confirmed
    ensures var after := StoreAfter(store, Transfer(info, true));
            info.txId in after && Mined(after[info.txId], info.blockNum)
    ensures Counts(NoteFor(store, Transfer(info, true), info.txId)) == [(1, false)]
  {
  }

  /**
   The whole lifecycle: a transaction first reported in block `n`, or moved there from the pool, then blocks
   without a gap. The counts queued are 1, then those of `Later`.
   */
  lemma Lifecycle(store: Store, info: TransferInfo, events: seq<Event>, first: int, min: nat)
    requires info.txId in store ==> store[info.txId].info.inPool && !store[info.txId].ignore
    requires NoConfirmedInPool(store) && !info.inPool && !info.confirmed && info.blockNum >= 1
    requires min >= 1 && first <= info.blockNum + 1 && Consecutive(events, first, min, info.txId)
    ensures Counts(Notes(store, [Transfer(info, true)] + events, info.txId))
            == [(1, false)] + Later(info.blockNum, min, first + BlockCount(events) - 1 - info.blockNum)
  {
    hide StoreAfter, NoteFor, Later, Counts, Mined, Consecutive;
    var e := Transfer(info, true);
    var note := NoteFor(store, e, info.txId);
    FirstReport(store, info);
    RunCons(store, e, events, info.txId);
    LaterBlocks(StoreAfter(store, e), events, first, info.blockNum, min, info.txId);
    CountsAppend(note, Notes(StoreAfter(store, e), events, info.txId));
  }

  // ---------- the manager ----------

  /** The queued notifications about one transaction, in order. */
  function About(queue: seq<Note>, t: TxId): seq<Note>
  {
    if queue == [] then [] else
      var last := queue[|queue| - 1];
      About(queue[..|queue| - 1], t) + if last.info.txId == t then [last] else []
  }

  lemma AboutNext(queue: seq<Note>, note: Note)
    ensures forall t :: About(queue + [note], t) == About(queue, t) + if note.info.txId == t then [note] else []
  {
    assert (queue + [note])[..|queue|] == queue;
  }

  /** Records are filed under their own ids. */
  predicate Filed(store: Store)
  {
    forall t :: t in store ==> store[t].info.txId == t
  }

  class Manager {
    var transactionPool: Store
    var queue: seq<Note>

    constructor ()
      ensures transactionPool == map[] && queue == []
    {
      transactionPool, queue := map[], [];
    }

    method SaveTransaction(tx: Record, writable: bool) returns (ok: bool)
      modifies this`transactionPool
      ensures ok == writable
      ensures transactionPool ==
              if writable then old(transactionPool)[tx.info.txId := tx] else old(transactionPool)
    {
      if writable {
        transactionPool := transactionPool[tx.info.txId := tx];
      }
      return writable;
    }

    method TransactionEventProcess(info: TransferInfo, writable: bool)
      requires Filed(transactionPool)
      modifies this
      ensures Filed(transactionPool)
      ensures transactionPool == StoreAfter(old(transactionPool), Transfer(info, writable))
      ensures forall t :: About(queue, t)
                == About(old(queue), t) + NoteFor(old(transactionPool), Transfer(info, writable), t)
    {
      var txInfo: Record;
      if info.txId !in transactionPool {
        txInfo := Record(info, false);
        var ok := SaveTransaction(txInfo, writable);
        if !ok {
          return;
        }
      } else {
        txInfo := transactionPool[info.txId];
        if txInfo.info.SameAs(info) {
          return;
        } else if txInfo.info.inPool && !info.inPool && !txInfo.ignore {
          txInfo := Record(
            txInfo.info.(blockNum := info.blockNum, timestamp := info.timestamp, inPool := false), txInfo.ignore);
          var _ := SaveTransaction(txInfo, writable);
        } else {
          return;
        }
      }
      var note := Note(txInfo.info, 0);
      if !note.info.inPool {
        note := note.(confirmations := 1);
      }
      if txInfo.ignore {
        return;
      }
      AboutNext(queue, note);
      queue := queue + [note];
    }

    /** The unconfirmed transactions of blocks below `blockNum`, each once. */
    method SearchTransactionsBeforeBlock(blockNum: int) returns (txList: seq<Record>)
      requires Filed(transactionPool)
      ensures Lists(txList, transactionPool, r => Open(r) && r.info.blockNum < blockNum)
    {
      txList := Search(r => Open(r) && r.info.blockNum < blockNum);
    }

    /** The unconfirmed transactions of blocks above `blockNum`, each once. */
    method SearchTransactionsAfterBlock(blockNum: int) returns (txList: seq<Record>)
      requires Filed(transactionPool)
      ensures Lists(txList, transactionPool, r => Open(r) && r.info.blockNum > blockNum)
    {
      txList := Search(r => Open(r) && r.info.blockNum > blockNum);
    }

    method Search(matches: Record -> bool) returns (txList: seq<Record>)
      requires Filed(transactionPool)
      ensures Lists(txList, transactionPool, matches)
    {
      txList := [];
      var rest := transactionPool.Keys;
      while rest != {}
        invariant rest <= transactionPool.Keys
        invariant forall i :: 0 <= i < |txList| ==>
                    Stored(transactionPool, txList[i]) && matches(txList[i]) && txList[i].info.txId !in rest
        invariant forall t :: t in transactionPool && t !in rest && matches(transactionPool[t]) ==>
                    transactionPool[t] in txList
        invariant forall i, j :: 0 <= i < j < |txList| ==> txList[i].info.txId != txList[j].info.txId
        decreases rest
      {
        var t :| t in rest;
        if matches(transactionPool[t]) {
          txList := txList + [transactionPool[t]];
        }
        rest := rest - {t};
      }
    }

    /** The counts of transactions still short of their confirmations. */
    method CountConfirmations(num: int, min: int)
      requires Filed(transactionPool)
      modifies this`queue
      ensures forall t :: About(queue, t) == About(old(queue), t) + CountNote(transactionPool, t, num, min)
    {
      hide About, Counted, HasId;
      var confirmedBlock := ConfirmedBlock(num, min);
      var txList := SearchTransactionsAfterBlock(confirmedBlock);
      NoIds();
      assert txList[..0] == [];
      for i := 0 to |txList|
        invariant forall t :: About(queue, t) == About(old(queue), t)
                    + if HasId(txList[..i], t) then CountNote(transactionPool, t, num, min) else []
      {
        IdsNext(txList, i);
        CountTransaction(txList[i], num, min);
      }
      assert txList[..|txList|] == txList;
      AllCounted(txList, transactionPool, num, min);
    }

    method CountTransaction(tx: Record, num: int, min: int)
      requires Stored(transactionPool, tx) && Open(tx) && tx.info.blockNum > ConfirmedBlock(num, min)
      modifies this`queue
      ensures forall t :: About(queue, t) == About(old(queue), t)
                + if t == tx.info.txId then CountNote(transactionPool, t, num, min) else []
    {
      hide About;
      if tx.info.blockNum < num {
        var note := Note(tx.info, num - tx.info.blockNum + 1);
        if !tx.ignore {
          AboutNext(queue, note);
          queue := queue + [note];
        }
      }
    }

    /** Confirms every transaction that is due and whose record the storage accepts. */
    method ConfirmTransactions(num: int, min: int, accepts: TxId -> bool)
      requires Filed(transactionPool)
      modifies this
      ensures transactionPool == BlockStore(old(transactionPool), num, min, accepts)
      ensures forall t :: About(queue, t) == About(old(queue), t) + DueNote(old(transactionPool), t, num, min, accepts)
    {
      hide About, Due, HasId, Open, ConfirmedAmong, BlockStore, DueNote;
      var confirmedBlock := ConfirmedBlock(num, min);
      var txList := SearchTransactionsBeforeBlock(confirmedBlock);
      ghost var store := transactionPool;
      NoIds();
      NoneConfirmed(store, accepts);
      assert txList[..0] == [];
      for i := 0 to |txList|
        invariant ConfirmedAmong(store, transactionPool, txList[..i], accepts)
        invariant forall t :: About(queue, t) == About(old(queue), t)
                    + if HasId(txList[..i], t) then DueNote(store, t, num, min, accepts) else []
      {
        IdsNext(txList, i);
        AmongNext(store, transactionPool, txList, i, accepts);
        ConfirmTransaction(txList[i], store, num, min, accepts);
      }
      assert txList[..|txList|] == txList;
      AllDue(txList, store, transactionPool, num, min, accepts);
    }

    method ConfirmTransaction(tx: Record, ghost store: Store, num: int, min: int, accepts: TxId -> bool)
      requires Stored(store, tx) && Open(tx) && tx.info.blockNum < ConfirmedBlock(num, min)
      modifies this
      ensures transactionPool == if accepts(tx.info.txId)
                                 then old(transactionPool)[tx.info.txId := Confirm(tx)] else old(transactionPool)
      ensures forall t :: About(queue, t) == About(old(queue), t)
                + if t == tx.info.txId then DueNote(store, t, num, min, accepts) else []
    {
      hide About;
      var confirmed := Confirm(tx);
      var ok := SaveTransaction(confirmed, accepts(tx.info.txId));
      if !ok {
        return;
      }
      var note := Note(confirmed.info, num - confirmed.info.blockNum);
      if !confirmed.ignore {
        AboutNext(queue, note);
        queue := queue + [note];
      }
    }

    method BlockEvent(num: int, min: int, accepts: TxId -> bool)
      requires Filed(transactionPool)
      modifies this
      ensures Filed(transactionPool)
      ensures transactionPool == StoreAfter(old(transactionPool), Block(num, min, accepts))
      ensures forall t :: About(queue, t)
                == About(old(queue), t) + NoteFor(old(transactionPool), Block(num, min, accepts), t)
    {
      hide About, BlockStep, NoteFor, CountNote, DueNote;
      CountConfirmations(num, min);
      ghost var between := queue;
      ConfirmTransactions(num, min, accepts);
      forall t ensures About(queue, t) == About(old(queue), t)
                         + NoteFor(old(transactionPool), Block(num, min, accepts), t)
      {
        BlockNotes(old(transactionPool), t, num, min, accepts);
        ghost var n, a, b := About(old(queue), t), CountNote(old(transactionPool), t, num, min),
          DueNote(old(transactionPool), t, num, min, accepts);
        assert (n + a) + b == n + (a + b);
      }
      StoreFiled(old(transactionPool), num, min, accepts);
    }

    /** The event loop over any sequence of events is the run of the specification. */
    method EventLoop(events: seq<Event>)
      requires Filed(transactionPool)
      modifies this
      ensures transactionPool == Run(old(transactionPool), events)
      ensures forall t :: About(queue, t) == About(old(queue), t) + Notes(old(transactionPool), events, t)
    {
      hide About, StoreAfter, NoteFor;
      for i := 0 to |events|
        invariant Filed(transactionPool) && transactionPool == Run(old(transactionPool), events[..i])
        invariant forall t :: About(queue, t) == About(old(queue), t) + Notes(old(transactionPool), events[..i], t)
      {
        RunNext(old(transactionPool), events, i);
        ghost var queued := queue;
        match events[i] {
          case Transfer(info, writable) => TransactionEventProcess(info, writable);
          case Block(num, min, accepts) => BlockEvent(num, min, accepts);
        }
        forall t ensures About(queue, t)
                           == About(old(queue), t) + Notes(old(transactionPool), events[..i + 1], t)
        {
          var a, n := About(old(queue), t), Notes(old(transactionPool), events[..i], t);
          var e := NoteFor(Run(old(transactionPool), events[..i]), events[i], t);
          assert (a + n) + e == a + (n + e);
        }
      }
      assert events[..|events|] == events;
    }
  }

  lemma RunNext(store: Store, events: seq<Event>, i: nat)
    requires i < |events|
    ensures Run(store, events[..i + 1]) == StoreAfter(Run(store, events[..i]), events[i])
    ensures forall t :: Notes(store, events[..i + 1], t)
              == Notes(store, events[..i], t) + NoteFor(Run(store, events[..i]), events[i], t)
  {
    hide StoreAfter, NoteFor;
    assert events[..i + 1][..i] == events[..i];
  }

  function Confirm(r: Record): Record { r.(info := r.info.(confirmed := true)) }

  /** `now` is `store` with the accepted records of the list confirmed. */
  ghost predicate ConfirmedAmong(store: Store, now: Store, list: seq<Record>, accepts: TxId -> bool)
  {
    && now.Keys == store.Keys
    && forall t :: t in store ==> now[t] == if HasId(list, t) && accepts(t) then Confirm(store[t]) else store[t]
  }

  lemma NoneConfirmed(store: Store, accepts: TxId -> bool)
    ensures ConfirmedAmong(store, store, [], accepts)
  {
  }

  lemma AmongNext(store: Store, now: Store, list: seq<Record>, i: nat, accepts: TxId -> bool)
    requires i < |list| && Stored(store, list[i]) && ConfirmedAmong(store, now, list[..i], accepts)
    ensures var id := list[i].info.txId;
            ConfirmedAmong(store, if accepts(id) then now[id := Confirm(list[i])] else now, list[..i + 1], accepts)
  {
    hide HasId;
    IdsNext(list, i);
  }

  function DueNote(store: Store, t: TxId, num: int, min: int, accepts: TxId -> bool): seq<Note>
  {
    if t in store && Due(store[t], num, min) && accepts(t) && !store[t].ignore
    then [Note(Confirm(store[t]).info, num - store[t].info.blockNum)] else []
  }

  lemma AllDue(list: seq<Record>, store: Store, now: Store, num: int, min: int, accepts: TxId -> bool)
    requires Filed(store) && Lists(list, store, r => Open(r) && r.info.blockNum < ConfirmedBlock(num, min))
    requires ConfirmedAmong(store, now, list, accepts)
    ensures now == BlockStore(store, num, min, accepts)
    ensures forall t :: !HasId(list, t) ==> DueNote(store, t, num, min, accepts) == []
  {
    forall t | t in store ensures Due(store[t], num, min) == HasId(list, t) {
      if Due(store[t], num, min) {
        assert store[t] in list;
      }
    }
  }

  /** A block event never queues both kinds of notification for one transaction. */
  lemma BlockNotes(store: Store, t: TxId, num: int, min: int, accepts: TxId -> bool)
    ensures NoteFor(store, Block(num, min, accepts), t)
            == CountNote(store, t, num, min) + DueNote(store, t, num, min, accepts)
  {
  }

  lemma StoreFiled(store: Store, num: int, min: int, accepts: TxId -> bool)
    requires Filed(store)
    ensures Filed(BlockStore(store, num, min, accepts))
  {
  }

  lemma NoIds()
    ensures forall t :: !HasId([], t)
  {
  }

  lemma AllCounted(list: seq<Record>, store: Store, num: int, min: int)
    requires Filed(store) && Lists(list, store, r => Open(r) && r.info.blockNum > ConfirmedBlock(num, min))
    ensures forall t :: !HasId(list, t) ==> CountNote(store, t, num, min) == []
  {
    forall t | t in store && Counted(store[t], num, min) ensures HasId(list, t) {
      assert store[t] in list;
    }
  }

  predicate Stored(store: Store, r: Record) { r.info.txId in store && store[r.info.txId] == r }

  /** Exactly the stored records that match, each once. */
  ghost predicate Lists(list: seq<Record>, store: Store, matches: Record -> bool)
  {
    && (forall i :: 0 <= i < |list| ==> Stored(store, list[i]) && matches(list[i]))
    && (forall t :: t in store && matches(store[t]) ==> store[t] in list)
    && (forall i, j :: 0 <= i < j < |list| ==> list[i].info.txId != list[j].info.txId)
  }

  predicate HasId(list: seq<Record>, t: TxId) { exists i :: 0 <= i < |list| && list[i].info.txId == t }

  lemma IdsNext(list: seq<Record>, i: nat)
    requires i < |list|
    ensures forall t :: HasId(list[..i + 1], t) <==> HasId(list[..i], t) || list[i].info.txId == t
    ensures (forall j :: 0 <= j < i ==> list[j].info.txId != list[i].info.txId) ==>
              !HasId(list[..i], list[i].info.txId)
  {
    assert list[..i + 1] == list[..i] + [list[i]];
    forall t ensures HasId(list[..i + 1], t) <==> HasId(list[..i], t) || list[i].info.txId == t {
      if HasId(list[..i], t) {
        var j :| 0 <= j < i && list[..i][j].info.txId == t;
        assert list[..i + 1][j].info.txId == t;
      }
      if list[i].info.txId == t {
        assert list[..i + 1][i].info.txId == t;
      }
    }
  }

  function CountNote(store: Store, t: TxId, num: int, min: int): seq<Note>
  {
    if t in store && Counted(store[t], num, min) && !store[t].ignore
    then [Note(store[t].info, num - store[t].info.blockNum + 1)] else []
  }
}
