/**
 The polling loop of the watchdog (watchdog/runloop.go, processblock.go, processtx.go, processmempool.go,
 state.go). A run may stop after any number of pushes and saves, as in a crash, and start again from the persisted
 block number. Every call to the node and to the storage succeeds.
 */
module Watchdog {

  datatype Tx = Tx(id: string, from: string, to: string, success: bool)

  datatype Event = BlockPushed(num: int) | TransactionPushed(tx: Tx)

  /** What the node answers in one turn: the memory pool and the current block number. */
  datatype Poll = Poll(pool: seq<Tx>, height: int)

  /** One event for every transaction that involves a known address. */
  function Managed(txs: seq<Tx>, known: string -> bool): seq<Event>
  {
    if txs == [] then [] else
      var tx := txs[|txs| - 1];
      Managed(txs[..|txs| - 1], known) + if known(tx.from) || known(tx.to) then [TransactionPushed(tx)] else []
  }

  /** The events of one block. */
  function BlockEvents(num: int, txs: seq<Tx>, known: string -> bool): seq<Event>
  {
    [BlockPushed(num)] + Managed(txs, known)
  }

  /** Somewhere in the log are all the events of block `num`, together. */
  ghost predicate Reported(log: seq<Event>, num: int, blocks: int -> seq<Tx>, known: string -> bool)
  {
    exists i: nat :: ReportedAt(log, i, BlockEvents(num, blocks(num), known))
  }

  ghost predicate ReportedAt(log: seq<Event>, i: nat, part: seq<Event>)
  {
    i + |part| <= |log| && log[i..i + |part|] == part
  }

  lemma ReportedGrows(log: seq<Event>, more: seq<Event>, num: int, blocks: int -> seq<Tx>, known: string -> bool)
    requires Reported(log, num, blocks, known) && log <= more
    ensures Reported(more, num, blocks, known)
  {
    var part := BlockEvents(num, blocks(num), known);
    var i: nat :| ReportedAt(log, i, part);
    assert more[i..i + |part|] == log[i..i + |part|];
    assert ReportedAt(more, i, part);
  }

  lemma ReportedNow(log: seq<Event>, num: int, blocks: int -> seq<Tx>, known: string -> bool)
    ensures Reported(log + BlockEvents(num, blocks(num), known), num, blocks, known)
  {
    var part := BlockEvents(num, blocks(num), known);
    assert (log + part)[|log|..|log| + |part|] == part;
    assert ReportedAt(log + part, |log|, part);
  }

  /** The block numbers pushed, in order. */
  function Nums(log: seq<Event>): seq<int>
  {
    if log == [] then [] else
      var e := log[|log| - 1];
      Nums(log[..|log| - 1]) + if e.BlockPushed? then [e.num] else []
  }

  lemma {:induction false} NumsAppend(a: seq<Event>, b: seq<Event>)
    ensures Nums(a + b) == Nums(a) + Nums(b)
  {
    if b == [] {
      assert a + b == a;
    } else {
      var n := |b| - 1;
      assert (a + b)[..|a + b| - 1] == a + b[..n];
      NumsAppend(a, b[..n]);
    }
  }

  lemma ManagedNums(txs: seq<Tx>, known: string -> bool, k: nat)
    requires k <= |Managed(txs, known)|
    ensures Nums(Managed(txs, known)[..k]) == []
  {
    var part := Managed(txs, known)[..k];
    ManagedHasNone(txs, known);
    assert forall e :: e in part ==> e in Managed(txs, known);
    NoBlocks(part);
  }

  lemma {:induction false} ManagedHasNone(txs: seq<Tx>, known: string -> bool)
    ensures forall e :: e in Managed(txs, known) ==> e.TransactionPushed?
  {
    if txs != [] {
      ManagedHasNone(txs[..|txs| - 1], known);
    }
  }

  lemma {:induction false} NoBlocks(log: seq<Event>)
    requires forall e :: e in log ==> e.TransactionPushed?
    ensures Nums(log) == []
  {
    if log != [] {
      assert log[|log| - 1] in log;
      NoBlocks(log[..|log| - 1]);
    }
  }

  /** The `n` numbers after `from`. */
  function After(from: int, n: nat): (s: seq<int>)
  {
    seq(n, i => from + 1 + i)
  }

  function Higher(a: int, b: int): int { if a > b then a else b }

  function Peak(from: int, polls: seq<Poll>): (h: int)
    ensures h >= from
  {
    if polls == [] then from else
      Higher(polls[|polls| - 1].height, Peak(from, polls[..|polls| - 1]))
  }

  // ---------- what a run is to do ----------

  /** A push to the event channel, or a save of the last block number. */
  datatype Action = Push(event: Event) | Save(num: int)

  /** What outlives the process: everything pushed so far, and the persisted number. */
  datatype World = World(events: seq<Event>, last: int)

  function Perform(w: World, actions: seq<Action>): World
  {
    if actions == [] then w else
      var before := Perform(w, actions[..|actions| - 1]);
      match actions[|actions| - 1]
      case Push(e) => before.(events := before.events + [e])
      case Save(n) => before.(last := n)
  }

  function Pushes(events: seq<Event>): (actions: seq<Action>)
    ensures |actions| == |events| && forall i :: 0 <= i < |events| ==> actions[i] == Push(events[i])
  {
    seq(|events|, i requires 0 <= i < |events| => Push(events[i]))
  }

  /** The blocks after `from` up to `to`, each saved once all its events are pushed. */
  function CatchUpActions(from: int, top: int, blocks: int -> seq<Tx>, known: string -> bool): seq<Action>
    decreases top - from
  {
    if top <= from then [] else
      CatchUpActions(from, top - 1, blocks, known) + (Pushes(BlockEvents(top, blocks(top), known)) + [Save(top)])
  }

  /** The new blocks of one turn; a single one is not saved on its own. */
  function NewBlocks(seen: int, height: int, blocks: int -> seq<Tx>, known: string -> bool): seq<Action>
  {
    if height <= seen then []
    else if height == seen + 1 then Pushes(BlockEvents(height, blocks(height), known))
    else CatchUpActions(seen, height, blocks, known)
  }

  /** One turn: the memory pool, the new blocks, and the height that the node reports, which may have fallen. */
  function TurnActions(poll: Poll, seen: int, blocks: int -> seq<Tx>, known: string -> bool): seq<Action>
  {
    Pushes(Managed(Successful(poll.pool), known)) + (NewBlocks(seen, poll.height, blocks, known) + [Save(poll.height)])
  }

  /** The whole run from a persisted number. */
  function Plan(start: int, polls: seq<Poll>, blocks: int -> seq<Tx>, known: string -> bool): seq<Action>
  {
    if polls == [] then [] else
      var before := polls[..|polls| - 1];
      Plan(start, before, blocks, known)
      + TurnActions(polls[|polls| - 1], Peak(start, before), blocks, known)
  }

  function Cut(left: nat, actions: seq<Action>): (n: nat)
    ensures n <= |actions|
  {
    if left < |actions| then left else |actions|
  }

  /** With `l0` actions left, exactly the first of the actions are performed, and `ok` says that it was all. */
  ghost predicate Did(w0: World, l0: nat, w: World, l: nat, actions: seq<Action>, ok: bool)
  {
    && ok == (l0 >= |actions|)
    && l == l0 - Cut(l0, actions)
    && w == Perform(w0, actions[..Cut(l0, actions)])
  }

  lemma DidNothing(w: World, l: nat)
    ensures Did(w, l, w, l, [], true)
  {
  }

  lemma {:induction false} PerformAppend(w: World, a: seq<Action>, b: seq<Action>)
    ensures Perform(w, a + b) == Perform(Perform(w, a), b)
  {
    if b == [] {
      assert a + b == a;
    } else {
      assert (a + b)[..|a + b| - 1] == a + b[..|b| - 1];
      PerformAppend(w, a, b[..|b| - 1]);
    }
  }

  lemma DidThen(w0: World, l0: nat, w1: World, l1: nat, a: seq<Action>, w2: World, l2: nat, b: seq<Action>, ok: bool)
    requires Did(w0, l0, w1, l1, a, true) && Did(w1, l1, w2, l2, b, ok)
    ensures Did(w0, l0, w2, l2, a + b, ok)
  {
    hide Perform;
    assert a[..|a|] == a;
    var n := Cut(l1, b);
    assert (a + b)[..|a| + n] == a + b[..n];
    PerformAppend(w0, a, b[..n]);
  }

  /** A run that was stopped is stopped at the same place whatever would have come after. */
  lemma DidStop(w0: World, l0: nat, w: World, l: nat, a: seq<Action>, all: seq<Action>)
    requires Did(w0, l0, w, l, a, false) && a <= all
    ensures Did(w0, l0, w, l, all, false)
  {
    hide Perform;
    assert all[..l0] == a[..l0];
  }

  lemma {:induction false} PerformPushes(w: World, events: seq<Event>, n: nat)
    requires n <= |events|
    ensures Perform(w, Pushes(events)[..n]) == World(w.events + events[..n], w.last)
  {
    if n == 0 {
      assert w.events + events[..0] == w.events;
    } else {
      PerformPushes(w, events, n - 1);
      assert Pushes(events)[..n][..n - 1] == Pushes(events)[..n - 1];
      assert events[..n] == events[..n - 1] + [events[n - 1]];
    }
  }

  lemma PushesAppend(a: seq<Event>, b: seq<Event>)
    ensures Pushes(a + b) == Pushes(a) + Pushes(b)
  {
  }

  lemma CatchUpNext(from: int, top: int, blocks: int -> seq<Tx>, known: string -> bool)
    requires from < top
    ensures CatchUpActions(from, from, blocks, known) == []
    ensures CatchUpActions(from, top, blocks, known)
            == CatchUpActions(from, top - 1, blocks, known)
               + (Pushes(BlockEvents(top, blocks(top), known)) + [Save(top)])
  {
  }

  lemma {:induction false} CatchUpPrefix(from: int, k: int, top: int, blocks: int -> seq<Tx>, known: string -> bool)
    requires from <= k <= top
    ensures CatchUpActions(from, k, blocks, known) <= CatchUpActions(from, top, blocks, known)
    decreases top - k
  {
    hide BlockEvents;
    if k < top {
      CatchUpPrefix(from, k + 1, top, blocks, known);
    }
  }

  lemma PlanNext(start: int, polls: seq<Poll>, i: nat, blocks: int -> seq<Tx>, known: string -> bool)
    requires i < |polls|
    ensures Plan(start, polls[..i + 1], blocks, known)
            == Plan(start, polls[..i], blocks, known)
               + TurnActions(polls[i], Peak(start, polls[..i]), blocks, known)
  {
    hide TurnActions;
    assert polls[..i + 1][..i] == polls[..i];
  }

  lemma {:induction false} PlanPrefix(start: int, polls: seq<Poll>, i: nat, blocks: int -> seq<Tx>,
                                      known: string -> bool)
    requires i <= |polls|
    ensures Plan(start, polls[..i], blocks, known) <= Plan(start, polls, blocks, known)
    decreases |polls| - i
  {
    hide TurnActions, Plan;
    if i == |polls| {
      assert polls[..i] == polls;
    } else {
      PlanPrefix(start, polls, i + 1, blocks, known);
      PlanNext(start, polls, i, blocks, known);
    }
  }

  // ---------- the service ----------

  class Service {
    const known: string -> bool
    const blocks: int -> seq<Tx>
    /** The persisted `LastBlockNum`. */
    var lastBlockNum: int
    /** Everything ever pushed to the event channel. */
    var events: seq<Event>
    /** The pushes and saves left before the process stops. */
    var left: nat

    function Now(): World
      reads this
    {
      World(events, lastBlockNum)
    }

    constructor (start: int, known: string -> bool, blocks: int -> seq<Tx>)
      ensures Now() == World([], start) && this.known == known && this.blocks == blocks
    {
      lastBlockNum, events, left, this.known, this.blocks := start, [], 0, known, blocks;
    }

    method PushEvent(e: Event) returns (ok: bool)
      modifies this`events, this`left
      ensures Did(old(Now()), old(left), Now(), left, [Push(e)], ok)
    {
      ok := left > 0;
      OneAction(Now(), Push(e));
      if ok {
        left := left - 1;
        events := events + [e];
      }
    }

    method UpdateState(currentBlockNum: int) returns (ok: bool)
      modifies this`lastBlockNum, this`left
      ensures Did(old(Now()), old(left), Now(), left, [Save(currentBlockNum)], ok)
    {
      ok := left > 0;
      OneAction(Now(), Save(currentBlockNum));
      if ok {
        left := left - 1;
        lastBlockNum := currentBlockNum;
      }
    }

    /** One event for a transaction of a known address, also when both sides are known. */
    method ProcessTx(tx: Tx) returns (ok: bool)
      modifies this`events, this`left
      ensures Did(old(Now()), old(left), Now(), left,
                  if known(tx.from) || known(tx.to) then [Push(TransactionPushed(tx))] else [], ok)
    {
      hide Did;
      ok := true;
      DidNothing(Now(), left);
      var eventSent := false;
      if known(tx.from) {
        ok := PushEvent(TransactionPushed(tx));
        eventSent := true;
      }
      if known(tx.to) {
        if !eventSent {
          ok := PushEvent(TransactionPushed(tx));
        }
      }
    }

    method ProcessTxs(txs: seq<Tx>) returns (ok: bool)
      modifies this`events, this`left
      ensures Did(old(Now()), old(left), Now(), left, Pushes(Managed(txs, known)), ok)
    {
      hide Managed, Did, Pushes;
      NoneManaged(known);
      DidNothing(Now(), left);
      for i := 0 to |txs|
        invariant Did(old(Now()), old(left), Now(), left, Pushes(Managed(txs[..i], known)), true)
      {
        ghost var w, l := Now(), left;
        ok := ProcessTx(txs[i]);
        ManagedPushes(txs, i, known);
        DidThen(old(Now()), old(left), w, l, Pushes(Managed(txs[..i], known)), Now(), left, OfTx(txs[i], known), ok);
        if !ok {
          ManagedPrefix(txs, i + 1, known);
          PushesPrefix(Managed(txs[..i + 1], known), Managed(txs, known));
          DidStop(old(Now()), old(left), Now(), left, Pushes(Managed(txs[..i + 1], known)),
                  Pushes(Managed(txs, known)));
          return;
        }
      }
      assert txs[..|txs|] == txs;
      return true;
    }

    /** The block event, then the block's transactions. */
    method ProcessBlock(blockNum: int) returns (ok: bool)
      modifies this`events, this`left
      ensures Did(old(Now()), old(left), Now(), left, Pushes(BlockEvents(blockNum, blocks(blockNum), known)), ok)
    {
      hide Managed, Did, Pushes;
      ghost var rest := Pushes(Managed(blocks(blockNum), known));
      BlockPushes(blockNum, blocks(blockNum), known);
      ok := PushEvent(BlockPushed(blockNum));
      if !ok {
        DidStop(old(Now()), old(left), Now(), left, [Push(BlockPushed(blockNum))],
                [Push(BlockPushed(blockNum))] + rest);
        return;
      }
      ghost var w, l := Now(), left;
      ok := ProcessTxs(blocks(blockNum));
      DidThen(old(Now()), old(left), w, l, [Push(BlockPushed(blockNum))], Now(), left, rest, ok);
    }

    /** The successful transactions of the pool. */
    method ProcessMemPool(pool: seq<Tx>) returns (ok: bool)
      modifies this`events, this`left
      ensures Did(old(Now()), old(left), Now(), left, Pushes(Managed(Successful(pool), known)), ok)
    {
      hide Managed, Successful, Did, Pushes;
      NoneManaged(known);
      NoneSuccessful();
      DidNothing(Now(), left);
      for i := 0 to |pool|
        invariant Did(old(Now()), old(left), Now(), left, Pushes(Managed(Successful(pool[..i]), known)), true)
      {
        SuccessfulPushes(pool, i, known);
        if !pool[i].success {
          continue;
        }
        ghost var w, l, before := Now(), left, Pushes(Managed(Successful(pool[..i]), known));
        ok := ProcessTx(pool[i]);
        DidThen(old(Now()), old(left), w, l, before, Now(), left, OfTx(pool[i], known), ok);
        if !ok {
          PoolPrefix(pool, i + 1, known);
          PushesPrefix(Managed(Successful(pool[..i + 1]), known), Managed(Successful(pool), known));
          DidStop(old(Now()), old(left), Now(), left, Pushes(Managed(Successful(pool[..i + 1]), known)),
                  Pushes(Managed(Successful(pool), known)));
          return;
        }
      }
      assert pool[..|pool|] == pool;
      return true;
    }

    /** The inner loop: blocks `lastSeen + 1` to `currentBlock`, each persisted as soon as it is done. */
    method CatchUp(lastSeen: int, currentBlock: int) returns (ok: bool)
      requires lastSeen < currentBlock
      modifies this
      ensures Did(old(Now()), old(left), Now(), left, CatchUpActions(lastSeen, currentBlock, blocks, known), ok)
    {
      hide Did, BlockEvents, Pushes, CatchUpActions;
      CatchUpNext(lastSeen, lastSeen + 1, blocks, known);
      DidNothing(Now(), left);
      for processBlock := lastSeen + 1 to currentBlock + 1
        invariant Did(old(Now()), old(left), Now(), left,
                      CatchUpActions(lastSeen, processBlock - 1, blocks, known), true)
      {
        ghost var done := CatchUpActions(lastSeen, processBlock - 1, blocks, known);
        ghost var w, l := Now(), left;
        CatchUpNext(lastSeen, processBlock, blocks, known);
        ok := BlockAndSave(processBlock);
        DidThen(old(Now()), old(left), w, l, done, Now(), left,
                Pushes(BlockEvents(processBlock, blocks(processBlock), known)) + [Save(processBlock)], ok);
        if !ok {
          CatchUpPrefix(lastSeen, processBlock, currentBlock, blocks, known);
          DidStop(old(Now()), old(left), Now(), left, CatchUpActions(lastSeen, processBlock, blocks, known),
                  CatchUpActions(lastSeen, currentBlock, blocks, known));
          return;
        }
      }
      return true;
    }

    method BlockAndSave(num: int) returns (ok: bool)
      modifies this
      ensures Did(old(Now()), old(left), Now(), left, Pushes(BlockEvents(num, blocks(num), known)) + [Save(num)], ok)
    {
      hide Did, BlockEvents, Pushes;
      ghost var push := Pushes(BlockEvents(num, blocks(num), known));
      ok := ProcessBlock(num);
      if !ok {
        DidStop(old(Now()), old(left), Now(), left, push, push + [Save(num)]);
        return;
      }
      ghost var w, l := Now(), left;
      ok := UpdateState(num);
      DidThen(old(Now()), old(left), w, l, push, Now(), left, [Save(num)], ok);
    }

    /** One turn of the loop. */
    method Turn(poll: Poll, lastSeen: int) returns (ok: bool, seen: int)
      modifies this
      ensures Did(old(Now()), old(left), Now(), left, TurnActions(poll, lastSeen, blocks, known), ok)
      ensures ok ==> seen == Higher(poll.height, lastSeen)
    {
      hide Did, BlockEvents, Managed, Successful, Pushes, CatchUpActions;
      seen := lastSeen;
      ghost var pool := Pushes(Managed(Successful(poll.pool), known));
      ghost var more := NewBlocks(lastSeen, poll.height, blocks, known) + [Save(poll.height)];
      ok := ProcessMemPool(poll.pool);
      if !ok {
        DidStop(old(Now()), old(left), Now(), left, pool, pool + more);
        return;
      }
      ghost var w, l := Now(), left;
      ok, seen := BlocksAndSave(poll.height, lastSeen);
      DidThen(old(Now()), old(left), w, l, pool, Now(), left, more, ok);
    }

    method BlocksAndSave(currentBlock: int, lastSeen: int) returns (ok: bool, seen: int)
      modifies this
      ensures Did(old(Now()), old(left), Now(), left,
                  NewBlocks(lastSeen, currentBlock, blocks, known) + [Save(currentBlock)], ok)
      ensures ok ==> seen == Higher(currentBlock, lastSeen)
    {
      hide Did, BlockEvents, Pushes, CatchUpActions;
      seen, ok := lastSeen, true;
      ghost var new' := NewBlocks(lastSeen, currentBlock, blocks, known);
      DidNothing(Now(), left);
      if currentBlock > lastSeen {
        if currentBlock - lastSeen > 1 {
          ok := CatchUp(lastSeen, currentBlock);
        } else {
          ok := ProcessBlock(currentBlock);
        }
        if !ok {
          DidStop(old(Now()), old(left), Now(), left, new', new' + [Save(currentBlock)]);
          return;
        }
        seen := currentBlock;
      }
      ghost var w, l := Now(), left;
      ok := UpdateState(currentBlock);
      DidThen(old(Now()), old(left), w, l, new', Now(), left, [Save(currentBlock)], ok);
    }

    /**
     A run over any answers of the node: exactly the first pushes and saves of the plan, as many as the process
     lives for; it is complete if that is all of them.
     */
    method RunLoop(polls: seq<Poll>) returns (complete: bool)
      modifies this
      ensures Did(old(Now()), old(left), Now(), left, Plan(old(lastBlockNum), polls, blocks, known), complete)
      ensures complete ==> Complete(old(Now()), Now(), polls, blocks, known)
      ensures Bounded(old(Now()), Now(), polls, blocks, known)
    {
      hide Did, Plan, TurnActions, Peak, Complete, Bounded;
      ghost var start := lastBlockNum;
      var lastSeenBlock := lastBlockNum;
      PeakNext(start, polls, 0);
      EmptyPlan(start, blocks, known);
      DidNothing(Now(), left);
      for i := 0 to |polls|
        invariant lastSeenBlock == Peak(start, polls[..i])
        invariant Did(old(Now()), old(left), Now(), left, Plan(start, polls[..i], blocks, known), true)
      {
        PeakNext(start, polls, i);
        PlanNext(start, polls, i, blocks, known);
        ghost var w, l := Now(), left;
        ghost var turn := TurnActions(polls[i], lastSeenBlock, blocks, known);
        complete, lastSeenBlock := Turn(polls[i], lastSeenBlock);
        DidThen(old(Now()), old(left), w, l, Plan(start, polls[..i], blocks, known), Now(), left, turn, complete);
        if !complete {
          PlanPrefix(start, polls, i + 1, blocks, known);
          DidStop(old(Now()), old(left), Now(), left, Plan(start, polls[..i + 1], blocks, known),
                  Plan(start, polls, blocks, known));
          CompleteRun(old(Now()), old(left), Now(), left, polls, blocks, known, false);
          return;
        }
      }
      assert polls[..|polls|] == polls;
      CompleteRun(old(Now()), old(left), Now(), left, polls, blocks, known, true);
      return true;
    }

    /** Any number of runs, each from the persisted number that the one before left, each cut off somewhere. */
    method Restarts(runs: seq<(seq<Poll>, nat)>)
      modifies this
      ensures Now() == AfterRuns(old(Now()), runs, blocks, known)
    {
      hide Plan, Perform;
      for r := 0 to |runs|
        invariant Now() == AfterRuns(old(Now()), runs[..r], blocks, known)
      {
        assert runs[..r + 1][..r] == runs[..r];
        left := runs[r].1;
        var _ := RunLoop(runs[r].0);
      }
      assert runs[..|runs|] == runs;
    }
  }

  /** The world after any number of runs, each of which performs a part of its plan. */
  function AfterRuns(w: World, runs: seq<(seq<Poll>, nat)>, blocks: int -> seq<Tx>, known: string -> bool): World
  {
    if runs == [] then w else
      var before := AfterRuns(w, runs[..|runs| - 1], blocks, known);
      var plan := Plan(before.last, runs[|runs| - 1].0, blocks, known);
      Perform(before, plan[..Cut(runs[|runs| - 1].1, plan)])
  }

  lemma OneAction(w: World, a: Action)
    ensures Perform(w, [a][..0]) == w
    ensures Perform(w, [a][..1]) == match a case Push(e) => World(w.events + [e], w.last)
                                            case Save(n) => World(w.events, n)
  {
    assert [a][..1] == [a] && [a][..0] == [];
  }

  function OfTx(tx: Tx, known: string -> bool): seq<Action>
  {
    if known(tx.from) || known(tx.to) then [Push(TransactionPushed(tx))] else []
  }

  lemma ManagedPushes(txs: seq<Tx>, i: nat, known: string -> bool)
    requires i < |txs|
    ensures Pushes(Managed(txs[..i + 1], known)) == Pushes(Managed(txs[..i], known)) + OfTx(txs[i], known)
  {
    hide Managed;
    ManagedNext(txs, i, known);
  }

  lemma SuccessfulPushes(pool: seq<Tx>, i: nat, known: string -> bool)
    requires i < |pool|
    ensures var before, after := Managed(Successful(pool[..i]), known), Managed(Successful(pool[..i + 1]), known);
            Pushes(after) == if pool[i].success then Pushes(before) + OfTx(pool[i], known) else Pushes(before)
  {
    hide Managed, Successful;
    SuccessfulNext(pool, i, known);
  }

  lemma PushesPrefix(a: seq<Event>, b: seq<Event>)
    requires a <= b
    ensures Pushes(a) <= Pushes(b)
  {
  }

  lemma BlockPushes(num: int, txs: seq<Tx>, known: string -> bool)
    ensures Pushes(BlockEvents(num, txs, known)) == [Push(BlockPushed(num))] + Pushes(Managed(txs, known))
  {
  }

  lemma EmptyPlan(start: int, blocks: int -> seq<Tx>, known: string -> bool)
    ensures Plan(start, [], blocks, known) == []
  {
  }

  lemma PeakNext(from: int, polls: seq<Poll>, i: nat)
    ensures Peak(from, []) == from
    ensures i < |polls| ==>
              Peak(from, polls[..i + 1]) == Higher(polls[i].height, Peak(from, polls[..i]))
  {
    if i < |polls| {
      assert polls[..i + 1][..i] == polls[..i];
    }
  }

  lemma NoneSuccessful()
    ensures Successful([]) == []
  {
  }

  lemma {:induction false} PoolPrefix(pool: seq<Tx>, i: nat, known: string -> bool)
    requires i <= |pool|
    ensures Managed(Successful(pool[..i]), known) <= Managed(Successful(pool), known)
    decreases |pool| - i
  {
    if i == |pool| {
      assert pool[..i] == pool;
    } else {
      PoolPrefix(pool, i + 1, known);
      SuccessfulNext(pool, i, known);
    }
  }

  /** The pool transactions that the node marks as successful. */
  function Successful(pool: seq<Tx>): seq<Tx>
  {
    if pool == [] then [] else
      Successful(pool[..|pool| - 1]) + if pool[|pool| - 1].success then [pool[|pool| - 1]] else []
  }

  lemma SuccessfulNext(pool: seq<Tx>, i: nat, known: string -> bool)
    requires i < |pool|
    ensures var before, after := Managed(Successful(pool[..i]), known), Managed(Successful(pool[..i + 1]), known);
            after == before + if pool[i].success && (known(pool[i].from) || known(pool[i].to))
                              then [TransactionPushed(pool[i])] else []
  {
    assert pool[..i + 1][..i] == pool[..i];
    var a := Successful(pool[..i]);
    if pool[i].success {
      assert Successful(pool[..i + 1]) == a + [pool[i]];
      assert (a + [pool[i]])[..|a|] == a;
    } else {
      assert Successful(pool[..i + 1]) == a;
    }
  }

  /** From `log0` to `log`: the numbers of `pushed` blocks after `p`, the first `whole` of them with all events. */
  ghost predicate Progress(log0: seq<Event>, log: seq<Event>, p: int, whole: nat, pushed: nat,
                           blocks: int -> seq<Tx>, known: string -> bool)
  {
    && log0 <= log && whole <= pushed <= whole + 1
    && Nums(log) == Nums(log0) + After(p, pushed)
    && forall b :: p < b <= p + whole ==> Reported(log, b, blocks, known)
  }

  lemma NoProgress(log: seq<Event>, p: int, blocks: int -> seq<Tx>, known: string -> bool)
    ensures Progress(log, log, p, 0, 0, blocks, known)
  {
  }

  /** Transactions of the memory pool, or some of them. */
  lemma PoolProgress(log0: seq<Event>, log: seq<Event>, log': seq<Event>, p: int, whole: nat, pushed: nat,
                     blocks: int -> seq<Tx>, known: string -> bool, txs: seq<Tx>)
    requires Progress(log0, log, p, whole, pushed, blocks, known)
    requires log <= log' <= log + Managed(txs, known)
    ensures Progress(log0, log', p, whole, pushed, blocks, known)
  {
    hide Managed, Nums, Reported;
    var k := |log'| - |log|;
    assert log' == log + Managed(txs, known)[..k];
    ManagedNums(txs, known, k);
    NumsAppend(log, Managed(txs, known)[..k]);
    forall b | p < b <= p + whole ensures Reported(log', b, blocks, known) {
      ReportedGrows(log, log', b, blocks, known);
    }
  }

  /** The next block, whole or cut short. */
  lemma BlockProgress(log0: seq<Event>, log: seq<Event>, log': seq<Event>, p: int, n: nat,
                      blocks: int -> seq<Tx>, known: string -> bool)
    requires Progress(log0, log, p, n, n, blocks, known)
    requires log <= log' <= log + BlockEvents(p + n + 1, blocks(p + n + 1), known)
    ensures log' == log + BlockEvents(p + n + 1, blocks(p + n + 1), known)
            ==> Progress(log0, log', p, n + 1, n + 1, blocks, known)
    ensures Progress(log0, log', p, n, n + if log' == log then 0 else 1, blocks, known)
  {
    hide Managed, Nums, Reported;
    var num := p + n + 1;
    var part := BlockEvents(num, blocks(num), known);
    var k := |log'| - |log|;
    assert log' == log + part[..k];
    forall b | p < b <= p + n ensures Reported(log', b, blocks, known) {
      ReportedGrows(log, log', b, blocks, known);
    }
    if k > 0 {
      assert part[..k] == [BlockPushed(num)] + Managed(blocks(num), known)[..k - 1];
      NumsAppend(log, part[..k]);
      NumsAppend([BlockPushed(num)], Managed(blocks(num), known)[..k - 1]);
      ManagedNums(blocks(num), known, k - 1);
      OneNum(num);
      assert After(p, n) + [num] == After(p, n + 1);
      assert (Nums(log0) + After(p, n)) + [num] == Nums(log0) + (After(p, n) + [num]);
    }
    if log' == log + part {
      ReportedNow(log, num, blocks, known);
    }
  }

  lemma OneNum(num: int)
    ensures Nums([BlockPushed(num)]) == [num]
  {
    assert [BlockPushed(num)][..0] == [];
  }

  lemma NoneManaged(known: string -> bool)
    ensures Managed([], known) == []
  {
  }

  lemma ManagedNext(txs: seq<Tx>, i: nat, known: string -> bool)
    requires i < |txs|
    ensures Managed(txs[..i + 1], known)
            == Managed(txs[..i], known)
               + if known(txs[i].from) || known(txs[i].to) then [TransactionPushed(txs[i])] else []
  {
    assert txs[..i + 1][..i] == txs[..i];
  }

  lemma {:induction false} ManagedPrefix(txs: seq<Tx>, i: nat, known: string -> bool)
    requires i <= |txs|
    ensures Managed(txs[..i], known) <= Managed(txs, known)
    decreases |txs|
  {
    if i == |txs| {
      assert txs[..i] == txs;
    } else {
      ManagedPrefix(txs[..|txs| - 1], i, known);
      assert txs[..|txs| - 1][..i] == txs[..i];
    }
  }

  // ---------- no block is skipped ----------

  /** From `w0` to `w`: the blocks as in `Progress`, and nothing persisted beyond the whole ones. */
  ghost predicate Safe(w0: World, w: World, whole: nat, pushed: nat, blocks: int -> seq<Tx>, known: string -> bool)
  {
    Progress(w0.events, w.events, w0.last, whole, pushed, blocks, known) && w.last <= w0.last + whole
  }

  /** At most one of the blocks pushed is not persisted. */
  ghost predicate Fresh(w0: World, w: World, pushed: nat)
  {
    pushed <= w.last - w0.last + 1
  }

  /** The heights that the node reports do not fall, nor below the start. */
  predicate NeverFalls(start: int, polls: seq<Poll>)
  {
    polls == [] || (polls[|polls| - 1].height >= Peak(start, polls[..|polls| - 1])
                    && NeverFalls(start, polls[..|polls| - 1]))
  }

  lemma PerformPart(w: World, a: seq<Action>, b: seq<Action>, n: nat)
    requires n <= |a + b|
    ensures n <= |a| ==> Perform(w, (a + b)[..n]) == Perform(w, a[..n])
    ensures n >= |a| ==> Perform(w, (a + b)[..n]) == Perform(Perform(w, a), b[..n - |a|])
  {
    hide Perform;
    if n <= |a| {
      assert (a + b)[..n] == a[..n];
    }
    if n >= |a| {
      assert (a + b)[..n] == a + b[..n - |a|];
      PerformAppend(w, a, b[..n - |a|]);
    }
  }

  lemma SafePool(w0: World, w: World, k: nat, blocks: int -> seq<Tx>, known: string -> bool, txs: seq<Tx>, n: nat)
    requires Safe(w0, w, k, k, blocks, known) && n <= |Managed(txs, known)|
    ensures Safe(w0, Perform(w, Pushes(Managed(txs, known))[..n]), k, k, blocks, known)
    ensures Perform(w, Pushes(Managed(txs, known))[..n]).last == w.last
  {
    hide Perform, Progress, Managed;
    PerformPushes(w, Managed(txs, known), n);
    PoolProgress(w0.events, w.events, w.events + Managed(txs, known)[..n], w0.last, k, k, blocks, known, txs);
  }

  lemma SafeBlock(w0: World, w: World, k: nat, blocks: int -> seq<Tx>, known: string -> bool, num: int, n: nat)
      returns (whole: nat, pushed: nat)
    requires Safe(w0, w, k, k, blocks, known) && num == w0.last + k + 1
    requires n <= |BlockEvents(num, blocks(num), known)|
    ensures Safe(w0, Perform(w, Pushes(BlockEvents(num, blocks(num), known))[..n]), whole, pushed, blocks, known)
    ensures n == |BlockEvents(num, blocks(num), known)| ==> whole == pushed == k + 1
    ensures pushed <= k + 1 && Perform(w, Pushes(BlockEvents(num, blocks(num), known))[..n]).last == w.last
  {
    hide Perform, Progress, BlockEvents;
    var part := BlockEvents(num, blocks(num), known);
    PerformPushes(w, part, n);
    BlockProgress(w0.events, w.events, w.events + part[..n], w0.last, k, blocks, known);
    if n == |part| {
      assert part[..n] == part;
      whole, pushed := k + 1, k + 1;
    } else {
      whole, pushed := k, k + if n == 0 then 0 else 1;
      assert n == 0 ==> w.events + part[..n] == w.events;
      assert n > 0 ==> |w.events + part[..n]| > |w.events|;
    }
  }

  lemma SafeSave(w0: World, w: World, k: nat, blocks: int -> seq<Tx>, known: string -> bool, num: int, n: nat)
    requires Safe(w0, w, k, k, blocks, known) && num <= w0.last + k && n <= 1
    ensures Safe(w0, Perform(w, [Save(num)][..n]), k, k, blocks, known)
    ensures Perform(w, [Save(num)][..n]).last == if n == 1 then num else w.last
  {
    hide Perform, Progress;
    OneAction(w, Save(num));
  }

  lemma {:induction false} SafeCatchUp(w0: World, w: World, k: nat, blocks: int -> seq<Tx>, known: string -> bool,
                                       top: int, n: nat)
      returns (whole: nat, pushed: nat)
    requires Safe(w0, w, k, k, blocks, known) && w0.last + k <= top
    requires n <= |CatchUpActions(w0.last + k, top, blocks, known)|
    ensures Safe(w0, Perform(w, CatchUpActions(w0.last + k, top, blocks, known)[..n]), whole, pushed, blocks, known)
    ensures n == |CatchUpActions(w0.last + k, top, blocks, known)| ==> whole == pushed && w0.last + whole == top
    ensures w.last == w0.last + k ==>
              var end := Perform(w, CatchUpActions(w0.last + k, top, blocks, known)[..n]);
              && Fresh(w0, end, pushed)
              && (n == |CatchUpActions(w0.last + k, top, blocks, known)| ==> end.last == top)
    decreases top - w0.last - k
  {
    hide Perform, Safe, BlockEvents, Pushes, CatchUpActions;
    var from := w0.last + k;
    var actions := CatchUpActions(from, top, blocks, known);
    CatchUpNext(from, from + 1, blocks, known);
    if from == top {
      whole, pushed := k, k;
      PerformNone(w);
      assert actions[..n] == [];
    } else {
      CatchUpNext(from, top, blocks, known);
      var before := CatchUpActions(from, top - 1, blocks, known);
      var push := Pushes(BlockEvents(top, blocks(top), known));
      PerformPart(w, before, push + [Save(top)], n);
      if n <= |before| {
        whole, pushed := SafeCatchUp(w0, w, k, blocks, known, top - 1, n);
        if n == |before| { assert before[..n] == before; NotAll(before, push, Save(top)); }
      } else {
        whole, pushed := SafeCatchUp(w0, w, k, blocks, known, top - 1, |before|);
        assert before[..|before|] == before;
        var w1, m := Perform(w, before), n - |before|;
        whole, pushed := SafeBlockAndSave(w0, w1, whole, blocks, known, top, m);
      }
    }
  }

  lemma NotAll(a: seq<Action>, b: seq<Action>, c: Action)
    ensures |a| < |a + (b + [c])|
  {
  }

  lemma PerformNone(w: World)
    ensures Perform(w, []) == w
  {
  }

  lemma SafeBlockAndSave(w0: World, w: World, k: nat, blocks: int -> seq<Tx>, known: string -> bool, num: int, n: nat)
      returns (whole: nat, pushed: nat)
    requires Safe(w0, w, k, k, blocks, known) && num == w0.last + k + 1
    requires var actions := Pushes(BlockEvents(num, blocks(num), known)) + [Save(num)]; n <= |actions|
    ensures var actions := Pushes(BlockEvents(num, blocks(num), known)) + [Save(num)];
            && Safe(w0, Perform(w, actions[..n]), whole, pushed, blocks, known)
            && (n == |actions| ==> whole == pushed == k + 1 && Perform(w, actions[..n]).last == num)
            && (w.last == w0.last + k ==> Fresh(w0, Perform(w, actions[..n]), pushed))
  {
    hide Perform, Safe, BlockEvents;
    var push := Pushes(BlockEvents(num, blocks(num), known));
    PerformPart(w, push, [Save(num)], n);
    if n <= |push| {
      whole, pushed := SafeBlock(w0, w, k, blocks, known, num, n);
    } else {
      whole, pushed := SafeBlock(w0, w, k, blocks, known, num, |push|);
      assert push[..|push|] == push;
      SafeSave(w0, Perform(w, push), whole, blocks, known, num, n - |push|);
    }
  }

  lemma SafeNewBlocks(w0: World, w: World, k: nat, blocks: int -> seq<Tx>, known: string -> bool, height: int, n: nat)
      returns (whole: nat, pushed: nat)
    requires Safe(w0, w, k, k, blocks, known)
    requires n <= |NewBlocks(w0.last + k, height, blocks, known)|
    ensures Safe(w0, Perform(w, NewBlocks(w0.last + k, height, blocks, known)[..n]), whole, pushed, blocks, known)
    ensures n == |NewBlocks(w0.last + k, height, blocks, known)| ==>
              whole == pushed && w0.last + whole == Higher(height, w0.last + k)
    ensures w.last == w0.last + k ==>
              Fresh(w0, Perform(w, NewBlocks(w0.last + k, height, blocks, known)[..n]), pushed)
  {
    hide Perform, Safe, BlockEvents, CatchUpActions;
    var seen := w0.last + k;
    if height <= seen {
      whole, pushed := k, k;
      PerformNone(w);
    } else if height == seen + 1 {
      whole, pushed := SafeBlock(w0, w, k, blocks, known, height, n);
    } else {
      whole, pushed := SafeCatchUp(w0, w, k, blocks, known, height, n);
    }
  }

  lemma SafeTurn(w0: World, w: World, k: nat, blocks: int -> seq<Tx>, known: string -> bool, poll: Poll, n: nat)
      returns (whole: nat, pushed: nat)
    requires Safe(w0, w, k, k, blocks, known)
    requires n <= |TurnActions(poll, w0.last + k, blocks, known)|
    ensures Safe(w0, Perform(w, TurnActions(poll, w0.last + k, blocks, known)[..n]), whole, pushed, blocks, known)
    ensures n == |TurnActions(poll, w0.last + k, blocks, known)| ==>
              && whole == pushed && w0.last + whole == Higher(poll.height, w0.last + k)
              && Perform(w, TurnActions(poll, w0.last + k, blocks, known)).last == poll.height
    ensures w.last == w0.last + k <= poll.height ==>
              Fresh(w0, Perform(w, TurnActions(poll, w0.last + k, blocks, known)[..n]), pushed)
  {
    hide Perform, Safe, NewBlocks, Managed, Successful;
    var txs := Successful(poll.pool);
    var a, b, c := Pushes(Managed(txs, known)), NewBlocks(w0.last + k, poll.height, blocks, known), [Save(poll.height)];
    PerformPart(w, a, b + c, n);
    if n <= |a| {
      whole, pushed := k, k;
      SafePool(w0, w, k, blocks, known, txs, n);
    } else {
      SafePool(w0, w, k, blocks, known, txs, |a|);
      assert a[..|a|] == a;
      var w1, m := Perform(w, a), n - |a|;
      PerformPart(w1, b, c, m);
      if m <= |b| {
        whole, pushed := SafeNewBlocks(w0, w1, k, blocks, known, poll.height, m);
      } else {
        whole, pushed := SafeNewBlocks(w0, w1, k, blocks, known, poll.height, |b|);
        assert b[..|b|] == b;
        SafeSave(w0, Perform(w1, b), whole, blocks, known, poll.height, m - |b|);
        assert (a + (b + c))[..n] == a + (b + c);
      }
    }
  }

  /**
   Whatever part of its plan a run performs: the block events it pushes are the numbers after the persisted one, in
   order and without repeats, and every block up to the number persisted in the end is pushed with all its
   transactions. A whole plan reaches the greatest height the node reported, and persists the last one. As long as
   the height does not fall, all blocks pushed but the last one are persisted: a restart repeats at most one.
   */
  lemma {:induction false} PlanIsSafe(w0: World, polls: seq<Poll>, blocks: int -> seq<Tx>, known: string -> bool,
                                      n: nat)
      returns (whole: nat, pushed: nat)
    requires n <= |Plan(w0.last, polls, blocks, known)|
    ensures Safe(w0, Perform(w0, Plan(w0.last, polls, blocks, known)[..n]), whole, pushed, blocks, known)
    ensures n == |Plan(w0.last, polls, blocks, known)| ==>
              whole == pushed && w0.last + whole == Peak(w0.last, polls)
    ensures polls != [] ==> Perform(w0, Plan(w0.last, polls, blocks, known)).last == polls[|polls| - 1].height
    ensures NeverFalls(w0.last, polls) ==>
              && Fresh(w0, Perform(w0, Plan(w0.last, polls, blocks, known)[..n]), pushed)
              && Perform(w0, Plan(w0.last, polls, blocks, known)).last == Peak(w0.last, polls)
    decreases |polls|
  {
    hide Perform, Safe, Plan, TurnActions;
    var plan := Plan(w0.last, polls, blocks, known);
    if polls == [] {
      EmptyPlan(w0.last, blocks, known);
      PerformNone(w0);
      SafeStart(w0, blocks, known);
      whole, pushed := 0, 0;
      assert plan[..n] == [];
    } else {
      var i := |polls| - 1;
      assert polls[..i + 1] == polls;
      PlanNext(w0.last, polls, i, blocks, known);
      PeakNext(w0.last, polls, i);
      var before, turn := Plan(w0.last, polls[..i], blocks, known),
        TurnActions(polls[i], Peak(w0.last, polls[..i]), blocks, known);
      var all, all' := PlanIsSafe(w0, polls[..i], blocks, known, |before|);
      assert before[..|before|] == before;
      var w1 := Perform(w0, before);
      PerformAppend(w0, before, turn);
      var end, end' := SafeTurn(w0, w1, all, blocks, known, polls[i], |turn|);
      PerformPart(w0, before, turn, n);
      if n <= |before| {
        whole, pushed := PlanIsSafe(w0, polls[..i], blocks, known, n);
        if n == |plan| { SaveLast(polls[i], Peak(w0.last, polls[..i]), blocks, known); }
      } else {
        whole, pushed := SafeTurn(w0, w1, all, blocks, known, polls[i], n - |before|);
      }
    }
  }

  // ---------- what is pushed, and how often ----------

  function Times(log: seq<Event>, e: Event): nat { multiset(log)[e] }

  function Bit(b: bool): nat { if b then 1 else 0 }

  /** How often `tx` is in the polled pools, marked as successful. */
  function PoolTimes(polls: seq<Poll>, tx: Tx): nat
  {
    if polls == [] then 0 else
      PoolTimes(polls[..|polls| - 1], tx) + if tx.success then multiset(polls[|polls| - 1].pool)[tx] else 0
  }

  /** How often `tx` is in the blocks after `from` up to `top`. */
  function BlockTimes(from: int, top: int, blocks: int -> seq<Tx>, tx: Tx): nat
    decreases top - from
  {
    if top <= from then 0 else BlockTimes(from, top - 1, blocks, tx) + multiset(blocks(top))[tx]
  }

  /**
   How often a whole run pushes an event: a transaction that involves a known address as often as it is in the pools
   and blocks, others never, and every block up to the greatest height once.
   */
  function Due(e: Event, start: int, polls: seq<Poll>, blocks: int -> seq<Tx>, known: string -> bool): nat
  {
    match e
    case BlockPushed(b) => Bit(start < b <= Peak(start, polls))
    case TransactionPushed(tx) =>
      if known(tx.from) || known(tx.to)
      then PoolTimes(polls, tx) + BlockTimes(start, Peak(start, polls), blocks, tx) else 0
  }

  /** The same for one part of a run, from the transactions of the pool and the blocks it takes. */
  function Part(e: Event, pool: seq<Tx>, from: int, top: int, blocks: int -> seq<Tx>, known: string -> bool): nat
  {
    match e
    case BlockPushed(b) => Bit(from < b <= top)
    case TransactionPushed(tx) =>
      if known(tx.from) || known(tx.to)
      then (if tx.success then multiset(pool)[tx] else 0) + BlockTimes(from, top, blocks, tx) else 0
  }

  lemma {:induction false} ManagedTimes(txs: seq<Tx>, known: string -> bool, e: Event)
    ensures Times(Managed(txs, known), e) ==
            match e
            case BlockPushed(_) => 0
            case TransactionPushed(tx) => if known(tx.from) || known(tx.to) then multiset(txs)[tx] else 0
  {
    if txs != [] {
      var n := |txs| - 1;
      ManagedTimes(txs[..n], known, e);
      assert txs == txs[..n] + [txs[n]];
    }
  }

  lemma {:induction false} SuccessfulTimes(pool: seq<Tx>, tx: Tx)
    ensures multiset(Successful(pool))[tx] == if tx.success then multiset(pool)[tx] else 0
  {
    if pool != [] {
      var n := |pool| - 1;
      SuccessfulTimes(pool[..n], tx);
      assert pool == pool[..n] + [pool[n]];
    }
  }

  /** The events of a list of actions. */
  function EventsOf(actions: seq<Action>): seq<Event>
  {
    if actions == [] then [] else
      EventsOf(actions[..|actions| - 1])
      + match actions[|actions| - 1] case Push(e) => [e] case Save(_) => []
  }

  lemma {:induction false} PerformEvents(w: World, actions: seq<Action>)
    ensures Perform(w, actions).events == w.events + EventsOf(actions)
  {
    if actions == [] {
      assert w.events + [] == w.events;
    } else {
      PerformEvents(w, actions[..|actions| - 1]);
    }
  }

  lemma {:induction false} EventsAppend(a: seq<Action>, b: seq<Action>)
    ensures EventsOf(a + b) == EventsOf(a) + EventsOf(b)
  {
    if b == [] {
      assert a + b == a;
    } else {
      assert (a + b)[..|a + b| - 1] == a + b[..|b| - 1];
      EventsAppend(a, b[..|b| - 1]);
    }
  }

  lemma {:induction false} EventsPushes(events: seq<Event>)
    ensures EventsOf(Pushes(events)) == events
  {
    if events != [] {
      var n := |events| - 1;
      EventsPushes(events[..n]);
      assert Pushes(events)[..n] == Pushes(events[..n]);
    }
  }

  lemma EventsSave(n: int)
    ensures EventsOf([Save(n)]) == []
  {
    assert [Save(n)][..0] == [];
  }

  lemma {:induction false} CatchUpTimes(from: int, top: int, blocks: int -> seq<Tx>, known: string -> bool, e: Event)
    ensures Times(EventsOf(CatchUpActions(from, top, blocks, known)), e) == Part(e, [], from, top, blocks, known)
    decreases top - from
  {
    hide BlockEvents, Pushes, EventsOf, CatchUpActions, Part, Times;
    NoEvents();
    PartNone(from, top, blocks, known, e);
    if from < top {
      CatchUpNext(from, top, blocks, known);
      CatchUpTimes(from, top - 1, blocks, known, e);
      var push := Pushes(BlockEvents(top, blocks(top), known));
      EventsAppend(CatchUpActions(from, top - 1, blocks, known), push + [Save(top)]);
      EventsAppend(push, [Save(top)]);
      EventsSave(top);
      EventsPushes(BlockEvents(top, blocks(top), known));
      BlockEventTimes(top, blocks, known, e);
      TimesAppend(EventsOf(CatchUpActions(from, top - 1, blocks, known)), BlockEvents(top, blocks(top), known), e);
      PartNext(from, top, blocks, known, e);
      assert BlockEvents(top, blocks(top), known) + [] == BlockEvents(top, blocks(top), known);
    } else {
      CatchUpNone(from, top, blocks, known);
    }
  }

  lemma CatchUpNone(from: int, top: int, blocks: int -> seq<Tx>, known: string -> bool)
    requires top <= from
    ensures CatchUpActions(from, top, blocks, known) == []
  {
  }

  lemma TimesAppend(a: seq<Event>, b: seq<Event>, e: Event)
    ensures Times(a + b, e) == Times(a, e) + Times(b, e) && Times([], e) == 0
  {
  }

  lemma PartNone(from: int, top: int, blocks: int -> seq<Tx>, known: string -> bool, e: Event)
    ensures top <= from ==> Part(e, [], from, top, blocks, known) == 0
    ensures Times([], e) == 0
  {
  }

  lemma PartNext(from: int, top: int, blocks: int -> seq<Tx>, known: string -> bool, e: Event)
    requires from < top
    ensures Part(e, [], from, top, blocks, known)
            == Part(e, [], from, top - 1, blocks, known) + Part(e, [], top - 1, top, blocks, known)
  {
    if e.TransactionPushed? { BlockTimesSplit(from, top - 1, top, blocks, e.tx); }
  }

  lemma BlockEventTimes(num: int, blocks: int -> seq<Tx>, known: string -> bool, e: Event)
    ensures Times(BlockEvents(num, blocks(num), known), e) == Part(e, [], num - 1, num, blocks, known)
  {
    hide Managed;
    ManagedTimes(blocks(num), known, e);
    if e.TransactionPushed? {
      assert BlockTimes(num - 1, num, blocks, e.tx) == BlockTimes(num - 1, num - 1, blocks, e.tx)
                                                       + multiset(blocks(num))[e.tx];
    }
  }

  lemma TurnTimes(poll: Poll, seen: int, blocks: int -> seq<Tx>, known: string -> bool, e: Event)
    ensures Times(EventsOf(TurnActions(poll, seen, blocks, known)), e)
            == Part(e, poll.pool, seen, Higher(poll.height, seen), blocks, known)
  {
    hide Managed, Successful, BlockEvents, CatchUpActions, EventsOf;
    var txs := Successful(poll.pool);
    var a, b, c := Pushes(Managed(txs, known)), NewBlocks(seen, poll.height, blocks, known), [Save(poll.height)];
    EventsAppend(a, b + c);
    EventsAppend(b, c);
    EventsSave(poll.height);
    EventsPushes(Managed(txs, known));
    ManagedTimes(txs, known, e);
    if e.TransactionPushed? { SuccessfulTimes(poll.pool, e.tx); }
    CatchUpTimes(seen, poll.height, blocks, known, e);
    EventsPushes(BlockEvents(poll.height, blocks(poll.height), known));
    BlockEventTimes(poll.height, blocks, known, e);
    NoEvents();
  }

  lemma NoEvents()
    ensures EventsOf([]) == []
  {
  }

  lemma {:induction false} BlockTimesSplit(a: int, b: int, c: int, blocks: int -> seq<Tx>, tx: Tx)
    requires a <= b <= c
    ensures BlockTimes(a, c, blocks, tx) == BlockTimes(a, b, blocks, tx) + BlockTimes(b, c, blocks, tx)
    decreases c - b
  {
    if b < c {
      BlockTimesSplit(a, b, c - 1, blocks, tx);
    }
  }

  lemma {:induction false} PlanTimes(start: int, polls: seq<Poll>, blocks: int -> seq<Tx>, known: string -> bool,
                                     e: Event)
    ensures Times(EventsOf(Plan(start, polls, blocks, known)), e) == Due(e, start, polls, blocks, known)
    decreases |polls|
  {
    hide TurnActions;
    if polls == [] {
      NoEvents();
    } else {
      var before, last := polls[..|polls| - 1], polls[|polls| - 1];
      var seen := Peak(start, before);
      PlanTimes(start, before, blocks, known, e);
      EventsAppend(Plan(start, before, blocks, known), TurnActions(last, seen, blocks, known));
      TurnTimes(last, seen, blocks, known, e);
      if e.TransactionPushed? { BlockTimesSplit(start, seen, Higher(last.height, seen), blocks, e.tx); }
    }
  }

  /**
   What a whole run adds to the events: a transaction that involves a known address exactly as often as it is among
   the successful ones of the polled pools and in the blocks processed, every block once, and nothing else.
   */
  ghost predicate Complete(w: World, end: World, polls: seq<Poll>, blocks: int -> seq<Tx>, known: string -> bool)
  {
    && w.events <= end.events
    && forall e :: Times(end.events, e) == Times(w.events, e) + Due(e, w.last, polls, blocks, known)
  }

  lemma PlanIsComplete(w: World, polls: seq<Poll>, blocks: int -> seq<Tx>, known: string -> bool)
    ensures Complete(w, Perform(w, Plan(w.last, polls, blocks, known)), polls, blocks, known)
  {
    hide Perform, Plan, EventsOf, Due;
    var plan := Plan(w.last, polls, blocks, known);
    PerformEvents(w, plan);
    forall e ensures Times(w.events + EventsOf(plan), e) == Times(w.events, e) + Due(e, w.last, polls, blocks, known) {
      PlanTimes(w.last, polls, blocks, known, e);
    }
  }

  lemma CompleteRun(w0: World, l0: nat, w: World, l: nat, polls: seq<Poll>, blocks: int -> seq<Tx>,
                    known: string -> bool, ok: bool)
    requires Did(w0, l0, w, l, Plan(w0.last, polls, blocks, known), ok)
    ensures ok ==> Complete(w0, w, polls, blocks, known)
    ensures Bounded(w0, w, polls, blocks, known)
  {
    hide Perform, Plan, EventsOf, Due, Times;
    var plan := Plan(w0.last, polls, blocks, known);
    var n := Cut(l0, plan);
    assert plan[..n] + plan[n..] == plan;
    assert ok ==> plan[..n] == plan;
    PlanIsComplete(w0, polls, blocks, known);
    PerformEvents(w0, plan);
    PerformEvents(w0, plan[..n]);
    EventsAppend(plan[..n], plan[n..]);
    forall e ensures Times(w.events, e) <= Times(w0.events, e) + Due(e, w0.last, polls, blocks, known) {
      assert w.events + EventsOf(plan[n..]) == Perform(w0, plan).events;
      TimesAppend(w.events, EventsOf(plan[n..]), e);
    }
  }

  /** However a run is cut off, nothing is pushed too often. */
  ghost predicate Bounded(w: World, end: World, polls: seq<Poll>, blocks: int -> seq<Tx>, known: string -> bool)
  {
    && w.events <= end.events
    && forall e :: Times(end.events, e) <= Times(w.events, e) + Due(e, w.last, polls, blocks, known)
  }

  /** A turn pushes its pool before its blocks. */
  lemma PoolFirst(poll: Poll, seen: int, blocks: int -> seq<Tx>, known: string -> bool)
    ensures Managed(Successful(poll.pool), known) <= EventsOf(TurnActions(poll, seen, blocks, known))
    ensures forall e :: e in Managed(Successful(poll.pool), known) ==> e.TransactionPushed?
  {
    hide Managed, Successful, NewBlocks, EventsOf;
    var txs := Successful(poll.pool);
    EventsAppend(Pushes(Managed(txs, known)), NewBlocks(seen, poll.height, blocks, known) + [Save(poll.height)]);
    EventsPushes(Managed(txs, known));
    ManagedHasNone(txs, known);
  }

  /** Events come in the order of their transactions. */
  lemma {:induction false} InOrder(a: seq<Tx>, b: seq<Tx>, known: string -> bool)
    ensures Managed(a + b, known) == Managed(a, known) + Managed(b, known)
    ensures Successful(a + b) == Successful(a) + Successful(b)
  {
    if b == [] {
      assert a + b == a;
    } else {
      var n := |b| - 1;
      assert (a + b)[..|a + b| - 1] == a + b[..n];
      InOrder(a, b[..n], known);
    }
  }

  lemma SafeStart(w: World, blocks: int -> seq<Tx>, known: string -> bool)
    ensures Safe(w, w, 0, 0, blocks, known)
  {
    NoProgress(w.events, w.last, blocks, known);
  }

  lemma SaveLast(poll: Poll, seen: int, blocks: int -> seq<Tx>, known: string -> bool)
    ensures |TurnActions(poll, seen, blocks, known)| > 0
  {
  }

  /**
   Over any number of runs, each cut off anywhere, with the node's height moving freely: no block between the first
   start and the persisted number is ever skipped, also after the persisted number has gone down.
   */
  lemma {:induction false} NoneSkipped(w: World, runs: seq<(seq<Poll>, nat)>, blocks: int -> seq<Tx>,
                                       known: string -> bool, b: int)
    ensures var end := AfterRuns(w, runs, blocks, known);
            w.events <= end.events && (w.last < b <= end.last ==> Reported(end.events, b, blocks, known))
  {
    hide Perform, Plan, Reported;
    if runs != [] {
      var r := |runs| - 1;
      NoneSkipped(w, runs[..r], blocks, known, b);
      var before := AfterRuns(w, runs[..r], blocks, known);
      var plan := Plan(before.last, runs[r].0, blocks, known);
      var whole, pushed := PlanIsSafe(before, runs[r].0, blocks, known, Cut(runs[r].1, plan));
      var end := AfterRuns(w, runs, blocks, known);
      if w.last < b <= before.last {
        ReportedGrows(before.events, end.events, b, blocks, known);
      }
    }
  }
}
