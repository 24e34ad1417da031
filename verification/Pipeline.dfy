/**
 * The request pipeline as interleaved steps: the poller thread that accepts
 * requests, one worker per request queue, and the sender.  A step is what one
 * thread does between two points where others may run.
 */
module Pipeline {

  /** A request, and later its response, with the connection it came from and the file its key belongs to. */
  datatype Msg = Msg(id: nat, fd: int, file: nat)

  datatype Thread = Server | Worker(i: nat) | Sender

  datatype Holder = Free | Held(owner: Thread)

  /** kv_work_queue: the queue, who holds its mutex, and whether its sleeping consumer was signalled. */
  datatype Queue = Queue(items: seq<Msg>, holder: Holder, signalled: bool, put: seq<Msg>, got: seq<Msg>)

  datatype ServerPc =
    | SIdle
    | SGot(m: Msg, q: nat)     // a request was read; its queue is to be locked
    | SLocked(m: Msg, q: nat)
    | SPut(q: nat)             // put, not yet signalled
    | SSignalled(q: nat)

  datatype WorkerPc =
    | WStart
    | WLocked                  // holds its request queue
    | WAsleep                  // in wait_work
    | WHolding(m: Msg)         // took a request, still holds the queue
    | WBusy(m: Msg)            // works on the index
    | WDone(m: Msg)            // has the result
    | WResLocked(m: Msg)       // holds the result queue
    | WResPut
    | WResSignalled

  datatype SenderPc =
    | XLoop                    // sends to the connections in its buffer
    | XErasing(fd: int)        // all of a response is sent
    | XLocked                  // holds the result queue
    | XAsleep                  // in wait_work
    | XWoken                   // holds the queue again and will take without looking
    | XTaken

  /** Where a request is. */
  datatype Place = AtServer | InQueue(i: nat) | AtWorker(i: nat) | InResults | InBuffer | Answered

  datatype State = State(
    server: ServerPc, queues: seq<Queue>, workers: seq<WorkerPc>,
    results: Queue, sender: SenderPc, bufs: map<int, Msg>,
    waiting: map<int, nat>,  // connections whose client waits, and for which request
    fdOf: seq<int>,          // the connection of each request accepted so far
    fileOf: seq<nat>,        // the file its key belongs to
    place: seq<Place>)       // where each of them is

  datatype Step =
    | Accept(fd: int, q: nat) | SLock | SPutWork | SSignal | SUnlock
    | WLock(i: nat) | WWait(i: nat) | WWake(i: nat) | WTake(i: nat) | WUnlock(i: nat) | WWork(i: nat)
    | WResLock(i: nat) | WResPutWork(i: nat) | WResSignal(i: nat) | WResUnlock(i: nat)
    | XDeliver(fd: int) | XErase | XLock | XWait | XBack | XWake | XTake | XUnlock

  const EMPTY := Queue([], Free, false, [], [])

  function Init(n: nat): State {
    State(SIdle, seq(n, i => EMPTY), seq(n, i => WStart), EMPTY, XLoop, map[], map[], [], [], [])
  }

  // ---------------------------------------------------------------- queue operations

  function Lock(q: Queue, t: Thread): Queue { q.(holder := Held(t)) }

  function Unlock(q: Queue): Queue { q.(holder := Free) }

  /** put_work */
  function Put(q: Queue, m: Msg): Queue { q.(items := q.items + [m], put := q.put + [m]) }

  /** get_work on a queue that has something. */
  function Take(q: Queue): Queue
    requires q.items != []
  {
    q.(items := q.items[1..], got := q.got + [q.items[0]])
  }

  /** signal_waiter wakes the consumer if it sleeps. */
  function Signal(q: Queue, asleep: bool): Queue { q.(signalled := q.signalled || asleep) }

  /** A woken wait_work returns holding the mutex. */
  function Wake(q: Queue, t: Thread): Queue { q.(holder := Held(t), signalled := false) }

  // ---------------------------------------------------------------- steps

  predicate Enabled(s: State, step: Step)
    requires |s.queues| == |s.workers|
  {
    match step
    case Accept(fd, q) => s.server == SIdle && fd > 0 && fd !in s.waiting && q < |s.queues|
    case SLock => s.server.SGot? && s.server.q < |s.queues| && s.queues[s.server.q].holder == Free
    case SPutWork => s.server.SLocked? && s.server.q < |s.queues|
    case SSignal => s.server.SPut? && s.server.q < |s.queues|
    case SUnlock => s.server.SSignalled? && s.server.q < |s.queues|
    case WLock(i) => i < |s.workers| && s.workers[i] == WStart && s.queues[i].holder == Free
    case WWait(i) => i < |s.workers| && s.workers[i] == WLocked && s.queues[i].items == []
    case WWake(i) => i < |s.workers| && s.workers[i] == WAsleep && s.queues[i].signalled && s.queues[i].holder == Free
    case WTake(i) => i < |s.workers| && s.workers[i] == WLocked && s.queues[i].items != []
    case WUnlock(i) => i < |s.workers| && s.workers[i].WHolding?
    case WWork(i) => i < |s.workers| && s.workers[i].WBusy?
    case WResLock(i) => i < |s.workers| && s.workers[i].WDone? && s.results.holder == Free
    case WResPutWork(i) => i < |s.workers| && s.workers[i].WResLocked?
    case WResSignal(i) => i < |s.workers| && s.workers[i] == WResPut
    case WResUnlock(i) => i < |s.workers| && s.workers[i] == WResSignalled
    case XDeliver(fd) => s.sender == XLoop && fd in s.bufs
    case XErase => s.sender.XErasing?
    case XLock => s.sender == XLoop && s.results.holder == Free
    case XWait => s.sender == XLocked && s.results.items == [] && s.bufs.Keys == {}
    case XBack => s.sender == XLocked && s.results.items == [] && s.bufs.Keys != {}
    case XWake => s.sender == XAsleep && s.results.signalled && s.results.holder == Free
    case XTake => (s.sender == XLocked || s.sender == XWoken) && s.results.items != []
    case XUnlock => s.sender == XTaken
  }

  predicate ByServer(step: Step) {
    step.Accept? || step.SLock? || step.SPutWork? || step.SSignal? || step.SUnlock?
  }

  predicate BySender(step: Step) {
    || step.XDeliver? || step.XErase? || step.XLock? || step.XWait?
    || step.XBack? || step.XWake? || step.XTake? || step.XUnlock?
  }

  function Moved(s: State, id: nat, p: Place): seq<Place> {
    if id < |s.place| then s.place[id := p] else s.place
  }

  /** The worker's state and its queue after a step of its own. */
  function WithWorker(s: State, i: nat, pc: WorkerPc, q: Queue): State
    requires i < |s.workers| == |s.queues|
  {
    s.(workers := s.workers[i := pc], queues := s.queues[i := q])
  }

  function Next(s: State, step: Step): State
    requires |s.queues| == |s.workers| && Enabled(s, step)
  {
    match step
    case Accept(fd, q) =>
      var m := Msg(|s.fdOf|, fd, q);
      s.(server := SGot(m, q), waiting := s.waiting[fd := m.id],
         fdOf := s.fdOf + [fd], fileOf := s.fileOf + [q], place := s.place + [AtServer])
    case SLock =>
      var q := s.server.q;
      s.(server := SLocked(s.server.m, q), queues := s.queues[q := Lock(s.queues[q], Server)])
    case SPutWork =>
      var q := s.server.q;
      s.(server := SPut(q), queues := s.queues[q := Put(s.queues[q], s.server.m)],
         place := Moved(s, s.server.m.id, InQueue(q)))
    case SSignal =>
      var q := s.server.q;
      s.(server := SSignalled(q), queues := s.queues[q := Signal(s.queues[q], s.workers[q] == WAsleep)])
    case SUnlock =>
      var q := s.server.q;
      s.(server := SIdle, queues := s.queues[q := Unlock(s.queues[q])])
    case WLock(i) => WithWorker(s, i, WLocked, Lock(s.queues[i], Worker(i)))
    case WWait(i) => WithWorker(s, i, WAsleep, Unlock(s.queues[i]))
    case WWake(i) => WithWorker(s, i, WLocked, Wake(s.queues[i], Worker(i)))
    case WTake(i) =>
      var m := s.queues[i].items[0];
      WithWorker(s, i, WHolding(m), Take(s.queues[i])).(place := Moved(s, m.id, AtWorker(i)))
    case WUnlock(i) => WithWorker(s, i, WBusy(s.workers[i].m), Unlock(s.queues[i]))
    case WWork(i) => WithWorker(s, i, WDone(s.workers[i].m), s.queues[i])
    case WResLock(i) =>
      WithWorker(s, i, WResLocked(s.workers[i].m), s.queues[i]).(results := Lock(s.results, Worker(i)))
    case WResPutWork(i) =>
      var m := s.workers[i].m;
      WithWorker(s, i, WResPut, s.queues[i]).(results := Put(s.results, m), place := Moved(s, m.id, InResults))
    case WResSignal(i) =>
      WithWorker(s, i, WResSignalled, s.queues[i]).(results := Signal(s.results, s.sender == XAsleep))
    case WResUnlock(i) => WithWorker(s, i, WStart, s.queues[i]).(results := Unlock(s.results))
    case XDeliver(fd) =>
      s.(sender := XErasing(fd), waiting := s.waiting - {fd}, place := Moved(s, s.bufs[fd].id, Answered))
    case XErase => s.(sender := XLoop, bufs := s.bufs - {s.sender.fd})
    case XLock => s.(sender := XLocked, results := Lock(s.results, Sender))
    case XWait => s.(sender := XAsleep, results := Unlock(s.results))
    case XBack => s.(sender := XLoop, results := Unlock(s.results))
    case XWake => s.(sender := XWoken, results := Wake(s.results, Sender))
    case XTake =>
      var m := s.results.items[0];
      s.(sender := XTaken, results := Take(s.results), bufs := s.bufs[m.fd := m], place := Moved(s, m.id, InBuffer))
    case XUnlock => s.(sender := XLoop, results := Unlock(s.results))
  }

  // ---------------------------------------------------------------- invariants

  predicate ServerHolds(s: State, q: nat) {
    (s.server.SLocked? || s.server.SPut? || s.server.SSignalled?) && s.server.q == q
  }

  predicate WorkerHolds(pc: WorkerPc) {
    pc == WLocked || pc.WHolding?
  }

  predicate WorkerHoldsResults(pc: WorkerPc) {
    pc.WResLocked? || pc == WResPut || pc == WResSignalled
  }

  predicate SenderHolds(pc: SenderPc) {
    pc == XLocked || pc == XWoken || pc == XTaken
  }

  /** Mutual exclusion: a mutex is held by exactly the thread that is in its critical section. */
  ghost predicate QueueLocks(s: State) {
    && |s.queues| == |s.workers|
    && (!s.server.SIdle? ==> s.server.q < |s.queues|)
    && (forall i :: 0 <= i < |s.queues| ==>
          && (s.queues[i].holder == Held(Server) <==> ServerHolds(s, i))
          && (s.queues[i].holder == Held(Worker(i)) <==> WorkerHolds(s.workers[i]))
          && (s.queues[i].holder == Free || s.queues[i].holder == Held(Server)
              || s.queues[i].holder == Held(Worker(i))))
  }

  ghost predicate ResultLock(s: State) {
    && (forall i :: 0 <= i < |s.workers| ==>
          (s.results.holder == Held(Worker(i)) <==> WorkerHoldsResults(s.workers[i])))
    && (s.results.holder == Held(Sender) <==> SenderHolds(s.sender))
    && (s.results.holder.Held? ==>
          s.results.holder.owner == Sender
          || (s.results.holder.owner.Worker? && s.results.holder.owner.i < |s.workers|))
  }

  /**
   * No lost wakeup at a request queue: a worker asleep without a signal faces
   * an empty queue, unless the server has just put and is about to signal; a
   * signalled one faces work.
   */
  ghost predicate WorkerWakes(s: State) {
    && |s.queues| == |s.workers|
    && (forall i :: 0 <= i < |s.queues| ==>
          && (s.workers[i] == WAsleep && !s.queues[i].signalled ==> s.queues[i].items == [] || s.server == SPut(i))
          && (s.queues[i].signalled ==> s.workers[i] == WAsleep && s.queues[i].items != []))
    && (s.server.SPut? && s.server.q < |s.queues| ==> s.queues[s.server.q].items != [])
  }

  /** A worker has put a result and is about to signal. */
  predicate ResultPut(s: State) {
    && s.results.holder.Held? && s.results.holder.owner.Worker? && s.results.holder.owner.i < |s.workers|
    && s.workers[s.results.holder.owner.i] == WResPut
  }

  /** The same at the result queue; the woken sender, which takes without looking, finds something. */
  ghost predicate SenderWakes(s: State) {
    && (s.sender == XAsleep && !s.results.signalled ==> s.results.items == [] || ResultPut(s))
    && (s.sender == XAsleep ==> s.bufs.Keys == {})
    && (s.results.signalled ==> s.sender == XAsleep && s.results.items != [])
    && (s.sender == XWoken || ResultPut(s) ==> s.results.items != [])
  }

  /** Each queue hands out what was put, in order. */
  ghost predicate Fifo(s: State) {
    && (forall i :: 0 <= i < |s.queues| ==> s.queues[i].put == s.queues[i].got + s.queues[i].items)
    && s.results.put == s.results.got + s.results.items
  }

  lemma QueueLocksNextByServer(s: State, step: Step)
    requires QueueLocks(s) && Enabled(s, step) && ByServer(step)
    ensures QueueLocks(Next(s, step))
  {
  }

  lemma QueueLocksNextBySender(s: State, step: Step)
    requires QueueLocks(s) && Enabled(s, step) && BySender(step)
    ensures QueueLocks(Next(s, step))
  {
  }

  lemma QueueLocksNextByWorker(s: State, step: Step)
    requires QueueLocks(s) && Enabled(s, step) && !ByServer(step) && !BySender(step)
    ensures QueueLocks(Next(s, step))
  {
  }

  lemma QueueLocksNext(s: State, step: Step)
    requires QueueLocks(s) && Enabled(s, step)
    ensures QueueLocks(Next(s, step))
  {
    hide Next;
    if ByServer(step) {
      QueueLocksNextByServer(s, step);
    } else if BySender(step) {
      QueueLocksNextBySender(s, step);
    } else {
      QueueLocksNextByWorker(s, step);
    }
  }

  lemma ResultLockNextByServer(s: State, step: Step)
    requires QueueLocks(s) && ResultLock(s) && Enabled(s, step) && ByServer(step)
    ensures ResultLock(Next(s, step))
  {
  }

  lemma ResultLockNextBySender(s: State, step: Step)
    requires QueueLocks(s) && ResultLock(s) && Enabled(s, step) && BySender(step)
    ensures ResultLock(Next(s, step))
  {
  }

  lemma ResultLockNextByWorker(s: State, step: Step)
    requires QueueLocks(s) && ResultLock(s) && Enabled(s, step) && !ByServer(step) && !BySender(step)
    ensures ResultLock(Next(s, step))
  {
  }

  lemma ResultLockNext(s: State, step: Step)
    requires QueueLocks(s) && ResultLock(s) && Enabled(s, step)
    ensures ResultLock(Next(s, step))
  {
    hide Next, ResultLock;
    if ByServer(step) {
      ResultLockNextByServer(s, step);
    } else if BySender(step) {
      ResultLockNextBySender(s, step);
    } else {
      ResultLockNextByWorker(s, step);
    }
  }

  lemma FifoNextByServer(s: State, step: Step)
    requires |s.queues| == |s.workers| && Fifo(s) && Enabled(s, step) && ByServer(step)
    ensures Fifo(Next(s, step))
  {
  }

  lemma FifoNextBySender(s: State, step: Step)
    requires |s.queues| == |s.workers| && Fifo(s) && Enabled(s, step) && BySender(step)
    ensures Fifo(Next(s, step))
  {
  }

  lemma FifoNextByWorker(s: State, step: Step)
    requires |s.queues| == |s.workers| && Fifo(s) && Enabled(s, step) && !ByServer(step) && !BySender(step)
    ensures Fifo(Next(s, step))
  {
  }

  lemma FifoNext(s: State, step: Step)
    requires |s.queues| == |s.workers| && Fifo(s) && Enabled(s, step)
    ensures Fifo(Next(s, step))
  {
    hide Next, Fifo;
    if ByServer(step) {
      FifoNextByServer(s, step);
    } else if BySender(step) {
      FifoNextBySender(s, step);
    } else {
      FifoNextByWorker(s, step);
    }
  }

  lemma WorkerWakesNextByServer(s: State, step: Step)
    requires QueueLocks(s) && WorkerWakes(s) && Enabled(s, step) && ByServer(step)
    ensures WorkerWakes(Next(s, step))
  {
  }

  lemma WorkerWakesNextBySender(s: State, step: Step)
    requires QueueLocks(s) && WorkerWakes(s) && Enabled(s, step) && BySender(step)
    ensures WorkerWakes(Next(s, step))
  {
  }

  lemma WorkerWakesNextByWorker(s: State, step: Step)
    requires QueueLocks(s) && WorkerWakes(s) && Enabled(s, step) && !ByServer(step) && !BySender(step)
    ensures WorkerWakes(Next(s, step))
  {
  }

  lemma WorkerWakesNext(s: State, step: Step)
    requires QueueLocks(s) && WorkerWakes(s) && Enabled(s, step)
    ensures WorkerWakes(Next(s, step))
  {
    hide Next, WorkerWakes;
    if ByServer(step) {
      WorkerWakesNextByServer(s, step);
    } else if BySender(step) {
      WorkerWakesNextBySender(s, step);
    } else {
      WorkerWakesNextByWorker(s, step);
    }
  }

  lemma SenderWakesNextByServer(s: State, step: Step)
    requires |s.queues| == |s.workers| && ResultLock(s) && SenderWakes(s) && Enabled(s, step) && ByServer(step)
    ensures SenderWakes(Next(s, step))
  {
  }

  lemma SenderWakesNextBySender(s: State, step: Step)
    requires |s.queues| == |s.workers| && ResultLock(s) && SenderWakes(s) && Enabled(s, step) && BySender(step)
    ensures SenderWakes(Next(s, step))
  {
  }

  lemma SenderWakesNextByWorker(s: State, step: Step)
    requires |s.queues| == |s.workers| && ResultLock(s) && SenderWakes(s) && Enabled(s, step)
    requires !ByServer(step) && !BySender(step)
    ensures SenderWakes(Next(s, step))
  {
  }

  lemma SenderWakesNext(s: State, step: Step)
    requires |s.queues| == |s.workers| && ResultLock(s) && SenderWakes(s) && Enabled(s, step)
    ensures SenderWakes(Next(s, step))
  {
    hide Next, SenderWakes;
    if ByServer(step) {
      SenderWakesNextByServer(s, step);
    } else if BySender(step) {
      SenderWakesNextBySender(s, step);
    } else {
      SenderWakesNextByWorker(s, step);
    }
  }

  // ---------------------------------------------------------------- exactly once

  predicate ServerHas(pc: ServerPc) {
    pc.SGot? || pc.SLocked?
  }

  predicate WorkerHas(pc: WorkerPc) {
    pc.WHolding? || pc.WBusy? || pc.WDone? || pc.WResLocked?
  }

  /** The message is that of a request accepted from its connection, and the request is at `p`. */
  predicate Is(s: State, m: Msg, p: Place) {
    m.id < |s.place| && m.id < |s.fdOf| && s.fdOf[m.id] == m.fd && s.place[m.id] == p
  }

  ghost predicate IdsDistinct(ms: seq<Msg>) {
    forall j, k :: 0 <= j < k < |ms| ==> ms[j].id != ms[k].id
  }

  /** Whatever is found somewhere is recorded there: nothing is in two places. */
  ghost predicate NotTwice(s: State) {
    && |s.queues| == |s.workers| && |s.place| == |s.fdOf|
    && (ServerHas(s.server) ==> Is(s, s.server.m, AtServer))
    && (forall i, k :: 0 <= i < |s.queues| && 0 <= k < |s.queues[i].items| ==> Is(s, s.queues[i].items[k], InQueue(i)))
    && (forall i :: 0 <= i < |s.queues| ==> IdsDistinct(s.queues[i].items))
    && (forall i :: 0 <= i < |s.workers| && WorkerHas(s.workers[i]) ==> Is(s, s.workers[i].m, AtWorker(i)))
    && (forall k :: 0 <= k < |s.results.items| ==> Is(s, s.results.items[k], InResults))
    && IdsDistinct(s.results.items)
    && (forall fd :: fd in s.bufs ==>
          s.bufs[fd].fd == fd && Is(s, s.bufs[fd], if s.sender == XErasing(fd) then Answered else InBuffer))
    && (s.sender.XErasing? ==> s.sender.fd in s.bufs)
  }

  ghost predicate Among(ms: seq<Msg>, id: nat) {
    exists k :: 0 <= k < |ms| && ms[k].id == id
  }

  /** Where a request really is; nothing is said of answered ones. */
  ghost predicate FoundAt(s: State, id: nat, p: Place)
    requires id < |s.fdOf|
  {
    match p
    case AtServer => ServerHas(s.server) && s.server.m.id == id
    case InQueue(i) => i < |s.queues| && Among(s.queues[i].items, id)
    case AtWorker(i) => i < |s.workers| && WorkerHas(s.workers[i]) && s.workers[i].m.id == id
    case InResults => Among(s.results.items, id)
    case InBuffer => s.fdOf[id] in s.bufs && s.bufs[s.fdOf[id]].id == id && s.sender != XErasing(s.fdOf[id])
    case Answered => true
  }

  /** Whatever is recorded somewhere is found there: nothing is lost. */
  ghost predicate Present(s: State, id: nat)
    requires id < |s.place| == |s.fdOf|
  {
    FoundAt(s, id, s.place[id])
  }

  /** Every accepted request is in exactly one place, the recorded one, until it is answered. */
  lemma ExactlyOnePlace(s: State, id: nat, p: Place)
    requires NotTwice(s) && NotLost(s) && id < |s.place| && p != Answered
    ensures FoundAt(s, id, p) <==> s.place[id] == p
  {
    assert Present(s, id);
    if p.InQueue? && FoundAt(s, id, p) {
      var k :| 0 <= k < |s.queues[p.i].items| && s.queues[p.i].items[k].id == id;
    }
  }

  lemma AmongAppend(ms: seq<Msg>, m: Msg, id: nat)
    ensures Among(ms + [m], id) <==> Among(ms, id) || m.id == id
  {
    if Among(ms, id) {
      var k :| 0 <= k < |ms| && ms[k].id == id;
      assert (ms + [m])[k] == ms[k];
    }
    assert (ms + [m])[|ms|] == m;
  }

  lemma AmongTail(ms: seq<Msg>, id: nat)
    requires ms != []
    ensures Among(ms, id) <==> ms[0].id == id || Among(ms[1..], id)
  {
    if Among(ms, id) && ms[0].id != id {
      var k :| 0 <= k < |ms| && ms[k].id == id;
      assert ms[1..][k - 1] == ms[k];
    }
  }

  ghost predicate NotLost(s: State) {
    |s.place| == |s.fdOf| && forall id :: 0 <= id < |s.place| ==> Present(s, id)
  }

  /** A client waits exactly for its one request that is not answered. */
  ghost predicate Synchronous(s: State) {
    && |s.place| == |s.fdOf|
    && (forall fd :: fd in s.waiting ==>
          s.waiting[fd] < |s.place| && s.fdOf[s.waiting[fd]] == fd && s.place[s.waiting[fd]] != Answered)
    && (forall id :: 0 <= id < |s.place| && s.place[id] != Answered ==>
          s.fdOf[id] in s.waiting && s.waiting[s.fdOf[id]] == id)
  }

  /** The sender's buffer for a connection is free when the next response for it is taken. */
  lemma BufferFree(s: State)
    requires NotTwice(s) && Synchronous(s) && s.results.items != [] && !s.sender.XErasing?
    ensures s.results.items[0].fd !in s.bufs
  {
    var m := s.results.items[0];
    assert Is(s, m, InResults);
    assert forall fd :: fd in s.bufs ==> Is(s, s.bufs[fd], InBuffer);
  }

  /** A response goes to the connection whose client waits for it. */
  lemma DeliverToOrigin(s: State, fd: int)
    requires NotTwice(s) && Synchronous(s) && s.sender == XLoop && fd in s.bufs
    ensures s.bufs[fd].fd == fd && fd in s.waiting && s.waiting[fd] == s.bufs[fd].id
    ensures s.place[s.bufs[fd].id] == InBuffer
  {
    assert Is(s, s.bufs[fd], InBuffer);
  }

  ghost predicate Traced(s: State) {
    NotTwice(s) && NotLost(s) && Synchronous(s)
  }

  predicate MovesNothing(step: Step) {
    && !step.Accept? && !step.SPutWork? && !step.WTake? && !step.WResPutWork?
    && !step.XDeliver? && !step.XErase? && !step.XTake?
  }

  /** The same messages at the same places. */
  ghost predicate SameMessages(s: State, s': State) {
    && s'.place == s.place && s'.fdOf == s.fdOf && s'.waiting == s.waiting && s'.bufs == s.bufs
    && |s'.queues| == |s.queues| && |s'.workers| == |s.workers|
    && (forall i :: 0 <= i < |s.queues| ==> s'.queues[i].items == s.queues[i].items)
    && s'.results.items == s.results.items
    && ServerHas(s'.server) == ServerHas(s.server) && (ServerHas(s.server) ==> s'.server.m == s.server.m)
    && (forall i :: 0 <= i < |s.workers| ==>
          && WorkerHas(s'.workers[i]) == WorkerHas(s.workers[i])
          && (WorkerHas(s.workers[i]) ==> s'.workers[i].m == s.workers[i].m))
    && (s.sender.XErasing? || s'.sender.XErasing? ==> s'.sender == s.sender)
  }

  lemma QuietStepByServer(s: State, step: Step)
    requires QueueLocks(s) && Enabled(s, step) && MovesNothing(step) && ByServer(step)
    ensures SameMessages(s, Next(s, step))
  {
  }

  lemma QuietStepBySender(s: State, step: Step)
    requires QueueLocks(s) && Enabled(s, step) && MovesNothing(step) && BySender(step)
    ensures SameMessages(s, Next(s, step))
  {
  }

  function InHand(pc: WorkerPc): seq<Msg> {
    if WorkerHas(pc) then [pc.m] else []
  }

  /** A worker's other steps change no queue contents, no results and nothing a worker has. */
  lemma WorkerKeepsHand(s: State, step: Step)
    requires QueueLocks(s) && Enabled(s, step)
    requires !ByServer(step) && !BySender(step) && !step.WTake? && !step.WResPutWork?
    ensures var t := Next(s, step); var i := step.i;
            && t.server == s.server && t.sender == s.sender && t.bufs == s.bufs
            && t.place == s.place && t.fdOf == s.fdOf && t.waiting == s.waiting
            && t.results.put == s.results.put && t.results.items == s.results.items
            && i < |s.workers| && |t.workers| == |t.queues| == |s.workers|
            && t.workers == s.workers[i := t.workers[i]] && t.queues == s.queues[i := t.queues[i]]
            && t.queues[i].items == s.queues[i].items && t.queues[i].got == s.queues[i].got
            && InHand(t.workers[i]) == InHand(s.workers[i])
            && WorkerHas(t.workers[i]) == WorkerHas(s.workers[i])
            && (WorkerHas(s.workers[i]) ==> t.workers[i].m == s.workers[i].m)
  {
  }

  lemma QuietStepByWorker(s: State, step: Step)
    requires QueueLocks(s) && Enabled(s, step) && MovesNothing(step) && !ByServer(step) && !BySender(step)
    ensures SameMessages(s, Next(s, step))
  {
    WorkerKeepsHand(s, step);
    hide Next, Enabled, QueueLocks, InHand, WorkerHas;
  }

  lemma QuietStep(s: State, step: Step)
    requires QueueLocks(s) && Enabled(s, step) && MovesNothing(step)
    ensures SameMessages(s, Next(s, step))
  {
    hide Next, SameMessages;
    if ByServer(step) {
      QuietStepByServer(s, step);
    } else if BySender(step) {
      QuietStepBySender(s, step);
    } else {
      QuietStepByWorker(s, step);
    }
  }

  lemma QuietNotTwice(s: State, s': State)
    requires Traced(s) && SameMessages(s, s')
    ensures NotTwice(s')
  {
  }

  lemma AcceptNotTwice(s: State, step: Step)
    requires QueueLocks(s) && Traced(s) && Enabled(s, step) && step.Accept?
    ensures NotTwice(Next(s, step))
  {
  }

  lemma SPutWorkNotTwice(s: State, step: Step)
    requires QueueLocks(s) && Traced(s) && Enabled(s, step) && step.SPutWork?
    ensures NotTwice(Next(s, step))
  {
  }

  lemma WTakeNotTwice(s: State, step: Step)
    requires QueueLocks(s) && Traced(s) && Enabled(s, step) && step.WTake?
    ensures NotTwice(Next(s, step))
  {
  }

  lemma WResPutWorkNotTwice(s: State, step: Step)
    requires QueueLocks(s) && Traced(s) && Enabled(s, step) && step.WResPutWork?
    ensures NotTwice(Next(s, step))
  {
  }

  lemma XTakeNotTwice(s: State, step: Step)
    requires QueueLocks(s) && Traced(s) && Enabled(s, step) && step.XTake?
    ensures NotTwice(Next(s, step))
  {
  }

  lemma XDeliverNotTwice(s: State, step: Step)
    requires QueueLocks(s) && Traced(s) && Enabled(s, step) && step.XDeliver?
    ensures NotTwice(Next(s, step))
  {
  }

  lemma XEraseNotTwice(s: State, step: Step)
    requires QueueLocks(s) && Traced(s) && Enabled(s, step) && step.XErase?
    ensures NotTwice(Next(s, step))
  {
  }

  lemma QuietNotLost(s: State, s': State)
    requires Traced(s) && SameMessages(s, s')
    ensures NotLost(s')
  {
    forall id | 0 <= id < |s'.place| ensures Present(s', id) {
      assert Present(s, id);
    }
  }

  lemma AcceptNotLost(s: State, step: Step)
    requires QueueLocks(s) && Traced(s) && Enabled(s, step) && step.Accept?
    ensures NotLost(Next(s, step))
  {
    var t := Next(s, step);
    forall id | 0 <= id < |t.place| ensures Present(t, id) {
      assert id < |s.place| ==> Present(s, id);
    }
  }

  lemma SPutWorkNotLost(s: State, step: Step)
    requires QueueLocks(s) && Traced(s) && Enabled(s, step) && step.SPutWork?
    ensures NotLost(Next(s, step))
  {
    var t := Next(s, step);
    forall id | 0 <= id < |t.place| ensures Present(t, id) {
      assert id < |s.place| ==> Present(s, id);
      AmongAppend(s.queues[s.server.q].items, s.server.m, id);
    }
  }

  lemma WTakeNotLost(s: State, step: Step)
    requires QueueLocks(s) && Traced(s) && Enabled(s, step) && step.WTake?
    ensures NotLost(Next(s, step))
  {
    var t := Next(s, step);
    forall id | 0 <= id < |t.place| ensures Present(t, id) {
      assert id < |s.place| ==> Present(s, id);
      AmongTail(s.queues[step.i].items, id);
    }
  }

  lemma WResPutWorkNotLost(s: State, step: Step)
    requires QueueLocks(s) && Traced(s) && Enabled(s, step) && step.WResPutWork?
    ensures NotLost(Next(s, step))
  {
    var t := Next(s, step);
    forall id | 0 <= id < |t.place| ensures Present(t, id) {
      assert id < |s.place| ==> Present(s, id);
      AmongAppend(s.results.items, s.workers[step.i].m, id);
    }
  }

  lemma XTakeNotLost(s: State, step: Step)
    requires QueueLocks(s) && Traced(s) && Enabled(s, step) && step.XTake?
    ensures NotLost(Next(s, step))
  {
    var t := Next(s, step);
    forall id | 0 <= id < |t.place| ensures Present(t, id) {
      assert id < |s.place| ==> Present(s, id);
      AmongTail(s.results.items, id);
    }
  }

  lemma XDeliverNotLost(s: State, step: Step)
    requires QueueLocks(s) && Traced(s) && Enabled(s, step) && step.XDeliver?
    ensures NotLost(Next(s, step))
  {
    var t := Next(s, step);
    forall id | 0 <= id < |t.place| ensures Present(t, id) {
      assert id < |s.place| ==> Present(s, id);
    }
  }

  lemma XEraseNotLost(s: State, step: Step)
    requires QueueLocks(s) && Traced(s) && Enabled(s, step) && step.XErase?
    ensures NotLost(Next(s, step))
  {
    var t := Next(s, step);
    forall id | 0 <= id < |t.place| ensures Present(t, id) {
      assert id < |s.place| ==> Present(s, id);
    }
  }

  lemma QuietSynchronous(s: State, s': State)
    requires Traced(s) && SameMessages(s, s')
    ensures Synchronous(s')
  {
  }

  lemma AcceptSynchronous(s: State, step: Step)
    requires QueueLocks(s) && Traced(s) && Enabled(s, step) && step.Accept?
    ensures Synchronous(Next(s, step))
  {
  }

  lemma SPutWorkSynchronous(s: State, step: Step)
    requires QueueLocks(s) && Traced(s) && Enabled(s, step) && step.SPutWork?
    ensures Synchronous(Next(s, step))
  {
  }

  lemma WTakeSynchronous(s: State, step: Step)
    requires QueueLocks(s) && Traced(s) && Enabled(s, step) && step.WTake?
    ensures Synchronous(Next(s, step))
  {
  }

  lemma WResPutWorkSynchronous(s: State, step: Step)
    requires QueueLocks(s) && Traced(s) && Enabled(s, step) && step.WResPutWork?
    ensures Synchronous(Next(s, step))
  {
  }

  lemma XTakeSynchronous(s: State, step: Step)
    requires QueueLocks(s) && Traced(s) && Enabled(s, step) && step.XTake?
    ensures Synchronous(Next(s, step))
  {
  }

  lemma XDeliverSynchronous(s: State, step: Step)
    requires QueueLocks(s) && Traced(s) && Enabled(s, step) && step.XDeliver?
    ensures Synchronous(Next(s, step))
  {
  }

  lemma XEraseSynchronous(s: State, step: Step)
    requires QueueLocks(s) && Traced(s) && Enabled(s, step) && step.XErase?
    ensures Synchronous(Next(s, step))
  {
  }

  // ---------------------------------------------------------------- order

  /** The messages of one file, in order. */
  function Via(ms: seq<Msg>, i: nat): seq<Msg> {
    if ms == [] then [] else Via(ms[..|ms| - 1], i) + if ms[|ms| - 1].file == i then [ms[|ms| - 1]] else []
  }

  /** A worker puts its results in the order it took the requests, whatever other workers put in between. */
  ghost predicate InOrder(s: State) {
    && |s.queues| == |s.workers|
    && (ServerHas(s.server) ==> s.server.m.file == s.server.q)
    && (forall i, k :: 0 <= i < |s.queues| && 0 <= k < |s.queues[i].items| ==> s.queues[i].items[k].file == i)
    && (forall i :: 0 <= i < |s.workers| && WorkerHas(s.workers[i]) ==> s.workers[i].m.file == i)
    && (forall i :: 0 <= i < |s.queues| ==> Via(s.results.put, i) + InHand(s.workers[i]) == s.queues[i].got)
  }

  lemma ViaAppend(ms: seq<Msg>, m: Msg, i: nat)
    ensures Via(ms + [m], i) == Via(ms, i) + if m.file == i then [m] else []
  {
    assert (ms + [m])[..|ms|] == ms;
  }

  lemma InOrderByServer(s: State, step: Step)
    requires QueueLocks(s) && InOrder(s) && Enabled(s, step) && ByServer(step)
    ensures InOrder(Next(s, step))
  {
    hide Via;
  }

  lemma InOrderBySender(s: State, step: Step)
    requires QueueLocks(s) && InOrder(s) && Enabled(s, step) && BySender(step)
    ensures InOrder(Next(s, step))
  {
    hide Via;
  }

  lemma InOrderTake(s: State, step: Step)
    requires QueueLocks(s) && InOrder(s) && Enabled(s, step) && step.WTake?
    ensures InOrder(Next(s, step))
  {
    hide Via;
    var i, t := step.i, Next(s, step);
    assert t.queues[i].got == s.queues[i].got + [s.queues[i].items[0]];
    assert InHand(t.workers[i]) == [s.queues[i].items[0]] && InHand(s.workers[i]) == [];
  }

  lemma InOrderPutResult(s: State, step: Step)
    requires QueueLocks(s) && InOrder(s) && Enabled(s, step) && step.WResPutWork?
    ensures InOrder(Next(s, step))
  {
    var m, t := s.workers[step.i].m, Next(s, step);
    forall i | 0 <= i < |s.queues| ensures Via(t.results.put, i) + InHand(t.workers[i]) == t.queues[i].got {
      ViaAppend(s.results.put, m, i);
    }
    hide Via;
  }

  lemma InOrderByWorker(s: State, step: Step)
    requires QueueLocks(s) && InOrder(s) && Enabled(s, step)
    requires !ByServer(step) && !BySender(step) && !step.WTake? && !step.WResPutWork?
    ensures InOrder(Next(s, step))
  {
    WorkerKeepsHand(s, step);
    hide Next, Enabled, QueueLocks, Via, InHand, WorkerHas;
  }

  lemma InOrderNext(s: State, step: Step)
    requires QueueLocks(s) && InOrder(s) && Enabled(s, step)
    ensures InOrder(Next(s, step))
  {
    hide Next, InOrder;
    if ByServer(step) {
      InOrderByServer(s, step);
    } else if BySender(step) {
      InOrderBySender(s, step);
    } else if step.WTake? {
      InOrderTake(s, step);
    } else if step.WResPutWork? {
      InOrderPutResult(s, step);
    } else {
      InOrderByWorker(s, step);
    }
  }

  /** The results of a file come in the order in which its requests were put. */
  lemma ResultsInOrder(s: State, i: nat)
    requires Fifo(s) && InOrder(s) && i < |s.queues|
    ensures Via(s.results.put, i) <= s.queues[i].put
  {
    assert Via(s.results.put, i) <= s.queues[i].got <= s.queues[i].put;
  }

  // ---------------------------------------------------------------- to the right worker

  /** A request lies with the worker of its file, and what left there is in the results as it was accepted. */
  predicate RoutedTo(s: State, id: nat)
    requires id < |s.place| == |s.fdOf| == |s.fileOf|
  {
    match s.place[id]
    case AtServer => true
    case InQueue(i) => s.fileOf[id] == i
    case AtWorker(i) => s.fileOf[id] == i
    case _ => Msg(id, s.fdOf[id], s.fileOf[id]) in s.results.put
  }

  ghost predicate Routed(s: State) {
    && |s.place| == |s.fdOf| == |s.fileOf|
    && (ServerHas(s.server) ==> s.server.m.id < |s.fileOf| && s.fileOf[s.server.m.id] == s.server.q)
    && (forall id :: 0 <= id < |s.place| ==> RoutedTo(s, id))
  }

  lemma QuietStepKeepsResults(s: State, step: Step)
    requires QueueLocks(s) && Enabled(s, step) && (MovesNothing(step) || step.XErase?)
    ensures var t := Next(s, step);
            && t.place == s.place && t.fdOf == s.fdOf && t.fileOf == s.fileOf && t.results.put == s.results.put
            && (ServerHas(t.server) ==> ServerHas(s.server) && t.server.m == s.server.m && t.server.q == s.server.q)
  {
  }

  lemma QuietRouted(s: State, step: Step)
    requires QueueLocks(s) && Routed(s) && Enabled(s, step) && (MovesNothing(step) || step.XErase?)
    ensures Routed(Next(s, step))
  {
    var t := Next(s, step);
    QuietStepKeepsResults(s, step);
    hide Next, Enabled, QueueLocks;
    forall id | 0 <= id < |t.place| ensures RoutedTo(t, id) {
      assert RoutedTo(s, id);
    }
  }

  lemma MoveRouted(s: State, step: Step)
    requires QueueLocks(s) && NotTwice(s) && InOrder(s) && Routed(s) && Enabled(s, step)
    requires !MovesNothing(step) && !step.XErase?
    ensures Routed(Next(s, step))
  {
    var t := Next(s, step);
    forall id | 0 <= id < |t.place| ensures RoutedTo(t, id) {
      assert id < |s.place| ==> RoutedTo(s, id);
      match step {
        case WTake(i) => assert Is(s, s.queues[i].items[0], InQueue(i));
        case WResPutWork(i) => assert Is(s, s.workers[i].m, AtWorker(i));
        case XTake => assert Is(s, s.results.items[0], InResults);
        case XDeliver(fd) => assert Is(s, s.bufs[fd], InBuffer);
        case _ =>
      }
    }
  }

  /** The worker of its file serves each request, and the response keeps its number, connection and file. */
  lemma RoutedNext(s: State, step: Step)
    requires QueueLocks(s) && NotTwice(s) && InOrder(s) && Routed(s) && Enabled(s, step)
    ensures Routed(Next(s, step))
  {
    hide Next, Routed;
    if MovesNothing(step) || step.XErase? {
      QuietRouted(s, step);
    } else {
      MoveRouted(s, step);
    }
  }

  // ---------------------------------------------------------------- every run

  ghost predicate Inv(s: State) {
    && QueueLocks(s) && ResultLock(s)
    && WorkerWakes(s) && SenderWakes(s) && Fifo(s) && InOrder(s)
    && Traced(s) && Routed(s)
  }

  lemma InitInv(n: nat)
    ensures Inv(Init(n))
  {
  }

  lemma InvCounts(s: State)
    requires Inv(s)
    ensures |s.queues| == |s.workers| && |s.place| == |s.fdOf| == |s.fileOf|
  {
  }

  lemma TracedNext(s: State, step: Step)
    requires QueueLocks(s) && Traced(s) && Enabled(s, step)
    ensures Traced(Next(s, step))
  {
    hide NotTwice, NotLost, Synchronous, SameMessages, Next;
    if MovesNothing(step) {
      QuietStep(s, step);
      QuietNotTwice(s, Next(s, step));
      QuietNotLost(s, Next(s, step));
      QuietSynchronous(s, Next(s, step));
    } else {
      match step
      case Accept(_, _) => AcceptNotTwice(s, step); AcceptNotLost(s, step); AcceptSynchronous(s, step);
      case SPutWork => SPutWorkNotTwice(s, step); SPutWorkNotLost(s, step); SPutWorkSynchronous(s, step);
      case WTake(_) => WTakeNotTwice(s, step); WTakeNotLost(s, step); WTakeSynchronous(s, step);
      case WResPutWork(_) => WResPutWorkNotTwice(s, step); WResPutWorkNotLost(s, step); WResPutWorkSynchronous(s, step);
      case XTake => XTakeNotTwice(s, step); XTakeNotLost(s, step); XTakeSynchronous(s, step);
      case XDeliver(_) => XDeliverNotTwice(s, step); XDeliverNotLost(s, step); XDeliverSynchronous(s, step);
      case XErase => XEraseNotTwice(s, step); XEraseNotLost(s, step); XEraseSynchronous(s, step);
    }
  }

  lemma InvNext(s: State, step: Step)
    requires Inv(s) && Enabled(s, step)
    ensures Inv(Next(s, step))
  {
    hide Next, ResultLock, WorkerWakes, SenderWakes, Fifo, InOrder, NotTwice, NotLost, Synchronous, Routed;
    QueueLocksNext(s, step);
    ResultLockNext(s, step);
    WorkerWakesNext(s, step);
    SenderWakesNext(s, step);
    FifoNext(s, step);
    InOrderNext(s, step);
    TracedNext(s, step);
    RoutedNext(s, step);
  }

  ghost predicate CanRun(s: State, steps: seq<Step>)
    requires Inv(s)
    decreases |steps|
  {
    steps == [] || (Enabled(s, steps[0]) && (InvNext(s, steps[0]); CanRun(Next(s, steps[0]), steps[1..])))
  }

  /** The state after a run; whatever the interleaving, the invariants hold. */
  ghost function After(s: State, steps: seq<Step>): (t: State)
    requires Inv(s) && CanRun(s, steps)
    ensures Inv(t)
    decreases |steps|
  {
    if steps == [] then s else
      InvNext(s, steps[0]);
      After(Next(s, steps[0]), steps[1..])
  }

  predicate Follows(p: Place, p': Place) {
    match p
    case AtServer => p'.InQueue?
    case InQueue(i) => p' == AtWorker(i)
    case AtWorker(_) => p' == InResults
    case InResults => p' == InBuffer
    case InBuffer => p' == Answered
    case Answered => false
  }

  /** A request goes through the stations in order, one at a time, and is answered at most once. */
  lemma StationByStation(s: State, step: Step, id: nat)
    requires QueueLocks(s) && NotTwice(s) && Enabled(s, step) && id < |s.place|
    ensures |Next(s, step).place| >= |s.place|
    ensures Next(s, step).place[id] == s.place[id] || Follows(s.place[id], Next(s, step).place[id])
  {
    if step.WTake? {
      assert Is(s, s.queues[step.i].items[0], InQueue(step.i));
    } else if step.XTake? {
      assert Is(s, s.results.items[0], InResults);
    } else if step.XDeliver? {
      assert Is(s, s.bufs[step.fd], InBuffer);
    }
  }

  // ---------------------------------------------------------------- progress

  function Sum(ws: seq<nat>): nat {
    if ws == [] then 0 else ws[0] + Sum(ws[1..])
  }

  lemma {:induction false} SumChange(ws: seq<nat>, ws': seq<nat>, i: nat)
    requires i < |ws| == |ws'|
    requires forall k :: 0 <= k < |ws| && k != i ==> ws'[k] == ws[k]
    ensures Sum(ws') == Sum(ws) - ws[i] + ws'[i]
  {
    if i == 0 {
      assert ws'[1..] == ws[1..];
    } else {
      SumChange(ws[1..], ws'[1..], i - 1);
    }
  }

  /** How far a request still has to go. */
  function PlaceWeight(p: Place): nat {
    match p
    case AtServer => 15
    case InQueue(_) => 15
    case AtWorker(_) => 5
    case InResults => 5
    case InBuffer => 2
    case Answered => 0
  }

  function WorkerWeight(pc: WorkerPc): nat {
    match pc
    case WAsleep => 0
    case WLocked => 1
    case WStart => 2
    case WResSignalled => 3
    case WResPut => 6
    case WResLocked(_) => 7
    case WDone(_) => 8
    case WBusy(_) => 9
    case WHolding(_) => 10
  }

  function ServerWeight(pc: ServerPc): nat {
    match pc
    case SIdle => 0
    case SSignalled(_) => 1
    case SPut(_) => 4
    case SLocked(_, _) => 5
    case SGot(_, _) => 6
  }

  /** The sender found no result but has responses to send: it goes back to sending. */
  predicate FoundNothing(s: State) {
    s.results.items == [] && s.bufs.Keys != {}
  }

  function SenderWeight(s: State): nat {
    match s.sender
    case XAsleep => 0
    case XLocked => if FoundNothing(s) then 3 else 1
    case XWoken => 1
    case XLoop => 2
    case XErasing(_) => 3
    case XTaken => 3
  }

  function SignalWeight(q: Queue): nat {
    if q.signalled then 2 else 0
  }

  function Places(s: State): (r: seq<nat>)
    ensures |r| == |s.place| && forall k :: 0 <= k < |r| ==> r[k] == PlaceWeight(s.place[k])
  {
    seq(|s.place|, k requires 0 <= k < |s.place| => PlaceWeight(s.place[k]))
  }

  function Stations(s: State): (r: seq<nat>)
    requires |s.queues| == |s.workers|
    ensures |r| == |s.workers|
    ensures forall k :: 0 <= k < |r| ==> r[k] == WorkerWeight(s.workers[k]) + SignalWeight(s.queues[k])
  {
    seq(|s.workers|, k requires 0 <= k < |s.workers| => WorkerWeight(s.workers[k]) + SignalWeight(s.queues[k]))
  }

  /** A bound on the steps left until everything is answered and asleep. */
  function Potential(s: State): nat
    requires |s.queues| == |s.workers|
  {
    Sum(Places(s)) + Sum(Stations(s)) + Ends(s)
  }

  function Ends(s: State): nat {
    ServerWeight(s.server) + SenderWeight(s) + SignalWeight(s.results)
  }

  /** The sender looks for results although none is there, while it has responses to send. */
  predicate Poll(s: State, step: Step) {
    step == XLock && FoundNothing(s)
  }

  function PlaceDrop(step: Step): nat {
    match step
    case WTake(_) => 10
    case XDeliver(_) => 2
    case XTake => 3
    case _ => 0
  }

  lemma PlaceChanged(s: State, t: State, id: nat)
    requires id < |s.place| == |t.place|
    requires t.place == s.place[id := t.place[id]]
    ensures Sum(Places(t)) == Sum(Places(s)) - PlaceWeight(s.place[id]) + PlaceWeight(t.place[id])
  {
    SumChange(Places(s), Places(t), id);
  }

  lemma StationChanged(s: State, t: State, i: nat)
    requires i < |s.workers| == |s.queues| && |t.workers| == |t.queues| == |s.workers|
    requires t.workers == s.workers[i := t.workers[i]] && t.queues == s.queues[i := t.queues[i]]
    ensures Sum(Stations(t)) == Sum(Stations(s)) - Stations(s)[i] + Stations(t)[i]
  {
    SumChange(Stations(s), Stations(t), i);
  }

  lemma PlacesAfterMove(s: State, step: Step)
    requires QueueLocks(s) && NotTwice(s) && Enabled(s, step) && (step.SPutWork? || step.WTake? || step.WResPutWork?)
    ensures Sum(Places(Next(s, step))) == Sum(Places(s)) - PlaceDrop(step)
  {
    var t := Next(s, step);
    if step.SPutWork? {
      PlaceChanged(s, t, s.server.m.id);
    } else if step.WTake? {
      assert Is(s, s.queues[step.i].items[0], InQueue(step.i));
      PlaceChanged(s, t, s.queues[step.i].items[0].id);
    } else {
      assert Is(s, s.workers[step.i].m, AtWorker(step.i));
      PlaceChanged(s, t, s.workers[step.i].m.id);
    }
  }

  lemma PlacesAfter(s: State, step: Step)
    requires QueueLocks(s) && NotTwice(s) && Enabled(s, step) && !step.Accept?
    ensures Sum(Places(Next(s, step))) == Sum(Places(s)) - PlaceDrop(step)
  {
    var t := Next(s, step);
    if MovesNothing(step) || step.XErase? {
      assert Places(t) == Places(s);
    } else if step.XDeliver? {
      assert Is(s, s.bufs[step.fd], InBuffer);
      PlaceChanged(s, t, s.bufs[step.fd].id);
    } else if step.XTake? {
      assert Is(s, s.results.items[0], InResults);
      PlaceChanged(s, t, s.results.items[0].id);
    } else {
      PlacesAfterMove(s, step);
    }
  }

  function StationGain(s: State, step: Step): int
    requires |s.queues| == |s.workers| && Enabled(s, step)
  {
    match step
    case SSignal => if s.workers[s.server.q] == WAsleep && !s.queues[s.server.q].signalled then 2 else 0
    case WTake(_) => 9
    case WResSignal(_) => -3
    case WLock(_) => -1
    case WWait(_) => -1
    case WWake(_) => -1
    case WUnlock(_) => -1
    case WWork(_) => -1
    case WResLock(_) => -1
    case WResPutWork(_) => -1
    case WResUnlock(_) => -1
    case _ => 0
  }

  lemma StationsAfterOthers(s: State, step: Step)
    requires QueueLocks(s) && Enabled(s, step) && !step.Accept? && (ByServer(step) || BySender(step))
    ensures Sum(Stations(Next(s, step))) == Sum(Stations(s)) + StationGain(s, step)
  {
    if ByServer(step) {
      StationChanged(s, Next(s, step), s.server.q);
    } else {
      assert Stations(Next(s, step)) == Stations(s);
    }
  }

  /** A worker's step changes its own state and its own queue. */
  lemma WorkerStepLocal(s: State, step: Step)
    requires QueueLocks(s) && Enabled(s, step) && !ByServer(step) && !BySender(step)
    ensures var t := Next(s, step); var i := step.i;
            && i < |s.workers| && |t.workers| == |t.queues| == |s.workers|
            && t.workers == s.workers[i := t.workers[i]] && t.queues == s.queues[i := t.queues[i]]
            && WorkerWeight(t.workers[i]) + SignalWeight(t.queues[i])
               == WorkerWeight(s.workers[i]) + SignalWeight(s.queues[i]) + StationGain(s, step)
  {
  }

  lemma StationsAfterWorker(s: State, step: Step)
    requires QueueLocks(s) && Enabled(s, step) && !ByServer(step) && !BySender(step)
    ensures |Next(s, step).queues| == |Next(s, step).workers|
    ensures Sum(Stations(Next(s, step))) == Sum(Stations(s)) + StationGain(s, step)
  {
    WorkerStepLocal(s, step);
    hide Next, Enabled, StationGain, QueueLocks, Sum;
    StationChanged(s, Next(s, step), step.i);
  }

  lemma EndsAfterOthers(s: State, step: Step)
    requires Inv(s) && Enabled(s, step) && !step.Accept? && !Poll(s, step) && (ByServer(step) || BySender(step))
    ensures Ends(Next(s, step)) + StationGain(s, step) < Ends(s) + PlaceDrop(step)
  {
    hide NotTwice, NotLost, Synchronous, Fifo, InOrder, Routed, WorkerWakes;
  }

  lemma EndsAfterWorker(s: State, step: Step)
    requires Inv(s) && Enabled(s, step) && !ByServer(step) && !BySender(step)
    ensures Ends(Next(s, step)) + StationGain(s, step) < Ends(s) + PlaceDrop(step)
  {
    hide NotTwice, NotLost, Synchronous, Fifo, InOrder, Routed, WorkerWakes;
  }

  /** The requests in `t` are those in `s`. */
  predicate SameRequests(s: State, t: State) {
    t.fdOf == s.fdOf && t.fileOf == s.fileOf && |t.queues| == |s.queues|
  }

  lemma RequestsKept(s: State, step: Step)
    requires |s.queues| == |s.workers| && Enabled(s, step) && !step.Accept?
    ensures SameRequests(s, Next(s, step))
    ensures !step.XDeliver? ==> Next(s, step).waiting == s.waiting
  {
  }

  /** Every step except an accept and the sender's polling brings the end nearer. */
  lemma PotentialFalls(s: State, step: Step)
    requires Inv(s) && Useful(s, step)
    ensures QueueLocks(Next(s, step)) && Potential(Next(s, step)) < Potential(s)
  {
    hide Next, Sum, Places, Stations, Ends;
    hide NotTwice, NotLost, Synchronous, ResultLock, Fifo, InOrder, Routed, SenderWakes, WorkerWakes;
    QueueLocksNext(s, step);
    PlacesAfter(s, step);
    if ByServer(step) || BySender(step) {
      StationsAfterOthers(s, step);
      EndsAfterOthers(s, step);
    } else {
      StationsAfterWorker(s, step);
      EndsAfterWorker(s, step);
    }
  }

  /** Polling costs one step, which the step back repays. */
  lemma PollCost(s: State, step: Step)
    requires Inv(s) && Enabled(s, step) && Poll(s, step)
    ensures QueueLocks(Next(s, step)) && Potential(Next(s, step)) == Potential(s) + 1
  {
    PlacesAfter(s, step);
    StationsAfterOthers(s, step);
  }

  /** What a worker can do depends on no other worker, only on its own state, its queue and the results' mutex. */
  lemma WorkersIndependent(s: State, t: State, step: Step)
    requires |s.queues| == |s.workers| == |t.queues| == |t.workers| && !ByServer(step) && !BySender(step)
    requires step.i < |s.workers| && s.workers[step.i] == t.workers[step.i] && s.queues[step.i] == t.queues[step.i]
    requires step.WResLock? ==> s.results.holder == t.results.holder
    ensures Enabled(s, step) <==> Enabled(t, step)
  {
  }

  // Whoever is in a critical section can go on, so every mutex is released.

  predicate Useful(s: State, step: Step)
    requires |s.queues| == |s.workers|
  {
    Enabled(s, step) && !step.Accept? && !Poll(s, step)
  }

  lemma ServerMoves(s: State) returns (step: Step)
    requires QueueLocks(s) && !s.server.SIdle?
    ensures Useful(s, step) && !step.XDeliver?
  {
    var q := s.server.q;
    if s.server.SGot? {
      step := if s.queues[q].holder == Free then SLock else
              if s.workers[q].WHolding? then WUnlock(q) else
              if s.queues[q].items == [] then WWait(q) else WTake(q);
    } else {
      step := if s.server.SLocked? then SPutWork else if s.server.SPut? then SSignal else SUnlock;
    }
  }

  lemma ResultsFree(s: State) returns (step: Step)
    requires QueueLocks(s) && ResultLock(s) && SenderWakes(s) && s.results.holder.Held?
    ensures Useful(s, step)
  {
    match s.results.holder.owner
    case Sender =>
      step := if s.sender == XTaken then XUnlock else
              if s.results.items != [] then XTake else
              if s.bufs.Keys == {} then XWait else XBack;
    case Worker(j) =>
      step := if s.workers[j].WResLocked? then WResPutWork(j) else
              if s.workers[j] == WResPut then WResSignal(j) else WResUnlock(j);
  }

  lemma WorkerMoves(s: State, i: nat) returns (step: Step)
    requires QueueLocks(s) && ResultLock(s) && WorkerWakes(s) && SenderWakes(s)
    requires i < |s.workers| && (s.workers[i] == WAsleep ==> s.queues[i].items != [])
    ensures Useful(s, step)
  {
    match s.workers[i]
    case WStart | WAsleep =>
      if s.queues[i].holder == Free && !s.server.SPut? {
        step := if s.workers[i] == WStart then WLock(i) else WWake(i);
      } else {
        step := ServerMoves(s);
      }
    case WLocked => step := if s.queues[i].items == [] then WWait(i) else WTake(i);
    case WHolding(_) => step := WUnlock(i);
    case WBusy(_) => step := WWork(i);
    case WDone(_) => if s.results.holder == Free { step := WResLock(i); } else { step := ResultsFree(s); }
    case WResLocked(_) => step := WResPutWork(i);
    case WResPut => step := WResSignal(i);
    case WResSignalled => step := WResUnlock(i);
  }

  lemma Someone(bufs: map<int, Msg>) returns (fd: int)
    requires bufs.Keys != {}
    ensures fd in bufs
  {
    assert (forall fd :: fd !in bufs) ==> bufs.Keys == {};
    fd :| fd in bufs;
  }

  lemma SenderMoves(s: State) returns (step: Step)
    requires QueueLocks(s) && ResultLock(s) && SenderWakes(s)
    requires s.sender == XAsleep ==> s.results.items != []
    ensures Useful(s, step)
  {
    if s.results.holder.Held? {
      step := ResultsFree(s);
    } else if s.sender == XLoop {
      if FoundNothing(s) {
        var fd := Someone(s.bufs);
        step := XDeliver(fd);
      } else {
        step := XLock;
      }
    } else {
      step := if s.sender == XAsleep then XWake else XErase;
    }
  }

  /** No deadlock: while a request is not answered, some thread can do useful work. */
  lemma NoDeadlock(s: State, id: nat) returns (step: Step)
    requires Inv(s) && id < |s.place| && s.place[id] != Answered
    ensures Useful(s, step)
  {
    assert Present(s, id);
    match s.place[id]
    case AtServer => step := ServerMoves(s);
    case InQueue(i) => step := WorkerMoves(s, i);
    case AtWorker(i) => step := WorkerMoves(s, i);
    case InResults => step := SenderMoves(s);
    case InBuffer => step := SenderMoves(s);
  }

  ghost predicate AllAnswered(s: State) {
    forall id :: 0 <= id < |s.place| ==> s.place[id] == Answered
  }

  predicate NoAccept(steps: seq<Step>) {
    forall k :: 0 <= k < |steps| ==> !steps[k].Accept?
  }

  /**
   * From every reachable state a run without new requests answers all that
   * were accepted, within a bound known beforehand; no client waits then, and
   * every response was put as its request was accepted.
   */
  lemma EverythingAnswered(s: State) returns (steps: seq<Step>)
    requires Inv(s)
    ensures CanRun(s, steps) && NoAccept(steps) && |steps| <= Potential(s)
    ensures var t := After(s, steps);
            && AllAnswered(t) && SameRequests(s, t)
            && t.waiting == map[]
            && (forall id :: 0 <= id < |s.fdOf| ==> Msg(id, s.fdOf[id], s.fileOf[id]) in t.results.put)
    decreases Potential(s)
  {
    hide Potential, Enabled, QueueLocks, Next, RoutedTo;
    if AllAnswered(s) {
      steps := [];
      AnsweredFromResults(s);
    } else {
      hide Inv;
      InvCounts(s);
      var id :| 0 <= id < |s.place| && s.place[id] != Answered;
      var step := NoDeadlock(s, id);
      PotentialFalls(s, step);
      RequestsKept(s, step);
      InvNext(s, step);
      var rest := EverythingAnswered(Next(s, step));
      steps := [step] + rest;
      assert steps[1..] == rest;
    }
  }

  lemma AnsweredFromResults(s: State)
    requires Synchronous(s) && Routed(s) && AllAnswered(s)
    ensures s.waiting == map[]
    ensures forall id :: 0 <= id < |s.fdOf| ==> Msg(id, s.fdOf[id], s.fileOf[id]) in s.results.put
  {
    assert forall fd :: fd !in s.waiting;
    forall id | 0 <= id < |s.fdOf| ensures Msg(id, s.fdOf[id], s.fileOf[id]) in s.results.put {
      assert RoutedTo(s, id);
    }
  }

  /**
   * From every reachable state the server comes back for the next request
   * without any response having to be sent first: a client that does not wait
   * is accepted whatever file its key belongs to.
   */
  lemma ServerComesBack(s: State) returns (steps: seq<Step>)
    requires Inv(s)
    ensures CanRun(s, steps) && NoAccept(steps) && |steps| <= Potential(s)
    ensures var t := After(s, steps);
            && SameRequests(s, t) && t.waiting == s.waiting
            && forall fd, q: nat :: fd > 0 && fd !in s.waiting && q < |s.queues| ==> Enabled(t, Accept(fd, q))
    decreases Potential(s)
  {
    hide Potential, QueueLocks, Next;
    if s.server.SIdle? {
      steps := [];
    } else {
      hide Enabled;
      var step := ServerMoves(s);
      hide Inv;
      PotentialFalls(s, step);
      RequestsKept(s, step);
      InvNext(s, step);
      var rest := ServerComesBack(Next(s, step));
      steps := [step] + rest;
      assert steps[1..] == rest;
    }
  }

  lemma {:induction false} RunAppend(s: State, a: seq<Step>, b: seq<Step>)
    requires Inv(s) && CanRun(s, a) && CanRun(After(s, a), b)
    ensures CanRun(s, a + b) && After(s, a + b) == After(After(s, a), b)
    decreases |a|
  {
    hide Enabled, Next, Inv;
    InvCounts(s);
    if a == [] {
      assert a + b == b;
    } else {
      InvNext(s, a[0]);
      RunAppend(Next(s, a[0]), a[1..], b);
      assert (a + b)[1..] == a[1..] + b;
    }
  }

  /** What a client asks for: from which connection, and a key of which file. */
  datatype Request = Request(fd: int, file: nat)

  /** Requests of different clients, none of which waits. */
  ghost predicate Askable(s: State, rs: seq<Request>) {
    && (forall k :: 0 <= k < |rs| ==> rs[k].fd > 0 && rs[k].fd !in s.waiting && rs[k].file < |s.queues|)
    && (forall j, k :: 0 <= j < k < |rs| ==> rs[j].fd != rs[k].fd)
  }

  function Fds(rs: seq<Request>): seq<int> {
    seq(|rs|, k requires 0 <= k < |rs| => rs[k].fd)
  }

  function Files(rs: seq<Request>): seq<nat> {
    seq(|rs|, k requires 0 <= k < |rs| => rs[k].file)
  }

  /** All of `rs` are accepted after what `s` had, and all their clients wait at once. */
  ghost predicate Asked(s: State, t: State, rs: seq<Request>) {
    && t.fdOf == s.fdOf + Fds(rs) && t.fileOf == s.fileOf + Files(rs)
    && (forall fd :: fd in s.waiting ==> fd in t.waiting && t.waiting[fd] == s.waiting[fd])
    && (forall k :: 0 <= k < |rs| ==> rs[k].fd in t.waiting && t.waiting[rs[k].fd] == |s.fdOf| + k)
  }

  /** From `s` to `t` one request was accepted. */
  ghost predicate AskedOne(s: State, t: State, r: Request) {
    && t.fdOf == s.fdOf + [r.fd] && t.fileOf == s.fileOf + [r.file] && |t.queues| == |s.queues|
    && t.waiting == s.waiting[r.fd := |s.fdOf|]
  }

  lemma AcceptOne(s: State, r: Request)
    requires |s.queues| == |s.workers| && Enabled(s, Accept(r.fd, r.file))
    ensures AskedOne(s, Next(s, Accept(r.fd, r.file)), r)
  {
  }

  lemma OneAccepted(s: State, r: Request) returns (steps: seq<Step>)
    requires Inv(s) && r.fd > 0 && r.fd !in s.waiting && r.file < |s.queues|
    ensures CanRun(s, steps) && AskedOne(s, After(s, steps), r)
  {
    hide Enabled, Next, Inv;
    InvCounts(s);
    var idle := ServerComesBack(s);
    var s1, accept := After(s, idle), Accept(r.fd, r.file);
    InvCounts(s1);
    AcceptOne(s1, r);
    InvNext(s1, accept);
    assert CanRun(Next(s1, accept), [accept][1..]);
    assert CanRun(s1, [accept]);
    RunAppend(s, idle, [accept]);
    steps := idle + [accept];
  }

  /** Any requests of clients that do not wait can be under way at once, whatever files they are for. */
  lemma {:induction false} AllAccepted(s: State, rs: seq<Request>) returns (steps: seq<Step>)
    requires Inv(s) && Askable(s, rs)
    ensures CanRun(s, steps) && Asked(s, After(s, steps), rs)
    decreases |rs|
  {
    hide Enabled, Next, Inv;
    if rs == [] {
      steps := [];
    } else {
      var one := OneAccepted(s, rs[0]);
      var s1 := After(s, one);
      var rest := AllAccepted(s1, rs[1..]);
      RunAppend(s, one, rest);
      steps := one + rest;
      AskedMore(s, s1, After(s1, rest), rs);
    }
  }

  lemma AskedMore(s: State, s2: State, t: State, rs: seq<Request>)
    requires rs != [] && Askable(s, rs) && Asked(s2, t, rs[1..])
    requires AskedOne(s, s2, rs[0])
    ensures Asked(s, t, rs)
  {
    assert Fds(rs) == [rs[0].fd] + Fds(rs[1..]) && Files(rs) == [rs[0].file] + Files(rs[1..]);
    forall k | 0 <= k < |rs| ensures rs[k].fd in t.waiting && t.waiting[rs[k].fd] == |s.fdOf| + k {
      if k > 0 {
        assert rs[k] == rs[1..][k - 1];
      }
    }
  }

  /** And all of them are answered: each by the worker of its file, to the connection it came from. */
  lemma AllServed(s: State, rs: seq<Request>) returns (accepting: seq<Step>, answering: seq<Step>)
    requires Inv(s) && Askable(s, rs)
    ensures CanRun(s, accepting) && Asked(s, After(s, accepting), rs)
    ensures CanRun(s, accepting + answering) && NoAccept(answering)
    ensures var t := After(s, accepting + answering);
            && AllAnswered(t) && t.waiting == map[]
            && t.fdOf == s.fdOf + Fds(rs) && t.fileOf == s.fileOf + Files(rs)
            && forall k :: 0 <= k < |rs| ==> Msg(|s.fdOf| + k, rs[k].fd, rs[k].file) in t.results.put
  {
    hide Inv, AllAnswered, CanRun, After, Askable;
    InvCounts(s);
    accepting := AllAccepted(s, rs);
    var s1 := After(s, accepting);
    answering := EverythingAnswered(s1);
    RunAppend(s, accepting, answering);
    forall k | 0 <= k < |rs|
      ensures Msg(|s.fdOf| + k, rs[k].fd, rs[k].file) in After(s1, answering).results.put
    {
      var id := |s.fdOf| + k;
      assert s1.fdOf[id] == Fds(rs)[k] && s1.fileOf[id] == Files(rs)[k];
      assert Msg(id, s1.fdOf[id], s1.fileOf[id]) in After(s1, answering).results.put;
    }
  }

  /** How often the sender polls in a run. */
  ghost function Polls(s: State, steps: seq<Step>): nat
    requires Inv(s) && CanRun(s, steps)
    decreases |steps|
  {
    if steps == [] then 0 else
      InvNext(s, steps[0]);
      (if Poll(s, steps[0]) then 1 else 0) + Polls(Next(s, steps[0]), steps[1..])
  }

  /** No run without new requests is longer than the bound, polls and the steps back from them aside. */
  lemma {:induction false} RunsEnd(s: State, steps: seq<Step>)
    requires Inv(s) && CanRun(s, steps)
    requires forall k :: 0 <= k < |steps| ==> !steps[k].Accept?
    ensures |steps| + Potential(After(s, steps)) <= Potential(s) + 2 * Polls(s, steps)
    decreases |steps|
  {
    hide Potential, Enabled, Next;
    if steps != [] {
      if Poll(s, steps[0]) {
        PollCost(s, steps[0]);
      } else {
        PotentialFalls(s, steps[0]);
      }
      InvNext(s, steps[0]);
      RunsEnd(Next(s, steps[0]), steps[1..]);
    }
  }
}
