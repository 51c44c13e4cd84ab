/** bcrawler.c: the three threads over two queues, in every interleaving. The event loop puts the seed
    on the send queue and then any URL on the receive queue; recv_thread is the only consumer of the
    receive queue, send_thread of the send queue. */
module Crawler {
  import opened Strings
  import opened Pointers
  import opened UrlQueue
  import opened QueueSteps
  import opened UrlTable

  datatype LoopPc = Seeding(op: Op) | Fetching(op: Op)

  datatype RecvPc = Getting(op: Op) | Persisting(x: Item) | Putting(op: Op)

  /** The shared memory, the program counters, and the logs. */
  datatype State = State(sendQ: Shared, recvQ: Shared, table: Table,
                         loop: LoopPc, recv: RecvPc, send: Op,
                         sendLog: Log, recvLog: Log, seen: seq<Item>)

  /** The operations running on the send queue. */
  function SendOps(s: State): Ops {
    Ops(if s.loop.Seeding? then s.loop.op else NoOp, if s.recv.Putting? then s.recv.op else NoOp, s.send)
  }

  function RecvOps(s: State): Ops {
    Ops(if s.loop.Fetching? then s.loop.op else NoOp, if s.recv.Getting? then s.recv.op else NoOp, NoOp)
  }

  function EmptyQueue(): Shared {
    Shared([Cell(Item(0, []), Null)], 0, Free)
  }

  ghost predicate Init(s: State, seed: Str) {
    s == State(EmptyQueue(), EmptyQueue(), EMPTY, Seeding(PutWants(Item(0, seed))), Getting(NoOp), NoOp,
               Log([], [], []), Log([], [], []), [])
  }

  // ---- steps ----

  ghost function SendQueueStep(s: State, t: Tid, op: Op): State {
    s.(sendQ := StepShared(t, s.sendQ, op), sendLog := StepLog(s.sendQ, op, s.sendLog))
  }

  ghost function RecvQueueStep(s: State, t: Tid, op: Op): State {
    s.(recvQ := StepShared(t, s.recvQ, op), recvLog := StepLog(s.recvQ, op, s.recvLog))
  }

  /** The main thread: the seed first; then the callbacks put whatever URLs the pages contain. */
  ghost predicate LoopStep(s: State, s': State) {
    match s.loop
    case Seeding(op) =>
      && CanStep(s.sendQ, op)
      && var op' := StepOp(s.sendQ, op);
      s' == SendQueueStep(s, Loop, op).(loop := if op'.NoOp? then Fetching(NoOp) else Seeding(op'))
    case Fetching(op) =>
      if op.NoOp? then exists x :: s' == s.(loop := Fetching(PutWants(x)))
      else CanStep(s.recvQ, op) && s' == RecvQueueStep(s, Loop, op).(loop := Fetching(StepOp(s.recvQ, op)))
  }

  /** recv_thread: dequeue, url_persistence, and enqueue if the URL is new. */
  ghost predicate RecvStep(s: State, s': State) {
    match s.recv
    case Getting(op) =>
      if op.NoOp? then s' == if s.recvQ.rear == 0 then s else s.(recv := Getting(GetTested))
      else
        && CanStep(s.recvQ, op)
        && s' == RecvQueueStep(s, Recv, op).(recv := if op.GetDone? then Persisting(op.x)
                                             else Getting(StepOp(s.recvQ, op)))
    case Persisting(x) =>
      var (t, ri) := Persisted(s.table, x.url, x.id);
      s' == s.(table := t, seen := s.seen + [x],
               recv := if ri > 0 then Putting(PutWants(Item(ri, x.url))) else Getting(NoOp))
    case Putting(op) =>
      && CanStep(s.sendQ, op)
      && var op' := StepOp(s.sendQ, op);
      s' == SendQueueStep(s, Recv, op).(recv := if op'.NoOp? then Getting(NoOp) else Putting(op'))
  }

  /** send_thread: dequeue and request the page. */
  ghost predicate SendStep(s: State, s': State) {
    if s.send.NoOp? then s' == if s.sendQ.rear == 0 then s else s.(send := GetTested)
    else CanStep(s.sendQ, s.send) && s' == SendQueueStep(s, Send, s.send).(send := StepOp(s.sendQ, s.send))
  }

  ghost predicate Next(s: State, s': State) {
    LoopStep(s, s') || RecvStep(s, s') || SendStep(s, s')
  }

  // ---- the invariant ----

  /** What recv_thread has taken out but not yet recorded. */
  function InHand(r: RecvPc): seq<Item> {
    match r
    case Persisting(x) => [x]
    case Getting(GetUnlinked(_, x)) => [x]
    case Getting(GetCompared(_, x, _)) => [x]
    case Getting(GetDone(x)) => [x]
    case _ => []
  }

  /** The new URL that recv_thread is about to link into the send queue. */
  function Pending(r: RecvPc): seq<Item> {
    match r
    case Putting(PutWants(x)) => [x]
    case Putting(PutLocked(x)) => [x]
    case Putting(PutAt(_, x)) => [x]
    case _ => []
  }

  function SeedPut(l: LoopPc, seed: Str): seq<Item> {
    match l
    case Seeding(PutWants(_)) => []
    case Seeding(PutLocked(_)) => []
    case Seeding(PutAt(_, _)) => []
    case _ => [Item(0, seed)]
  }

  /** The known URLs with their numbers. */
  function Numbered(urls: seq<Str>): seq<Item> {
    seq(|urls|, i requires 0 <= i < |urls| => Item(i + 1, urls[i]))
  }

  predicate IsPut(op: Op) {
    op.PutWants? || op.PutLocked? || op.PutAt? || op.PutLinked? || op.PutMoved?
  }

  /** Program counters make sense. */
  ghost predicate Shapes(s: State, seed: Str) {
    && (s.loop.Seeding? ==> IsPut(s.loop.op) && s.recvLog.put == [])
    && (s.loop.Fetching? ==> IsPut(s.loop.op) || s.loop.op.NoOp?)
    && (s.loop.Seeding? && (s.loop.op.PutWants? || s.loop.op.PutLocked? || s.loop.op.PutAt?) ==>
          s.loop.op.x == Item(0, seed))
    && (s.recv.Getting? ==> !IsPut(s.recv.op))
    && (s.recv.Putting? ==> IsPut(s.recv.op) && s.table.urls != [])
    && !IsPut(s.send)
  }

  ghost predicate Inv(s: State, seed: Str) {
    && QueueInv(s.sendQ, s.sendLog, SendOps(s), Send)
    && QueueInv(s.recvQ, s.recvLog, RecvOps(s), Recv)
    && Shapes(s, seed)
    && s.table == TableOf(s.seen)
    && s.recvLog.got == s.seen + InHand(s.recv)
    && s.sendLog.put + Pending(s.recv) == SeedPut(s.loop, seed) + Numbered(s.table.urls)
  }

  lemma InitHolds(s: State, seed: Str)
    requires Init(s, seed)
    ensures Inv(s, seed)
  {
  }

  // ---- every step keeps it ----

  lemma SendStepKeeps(s: State, s': State, seed: Str)
    requires Inv(s, seed) && SendStep(s, s')
    ensures Inv(s', seed)
  {
    hide QueueInv, TableOf;
    if !s.send.NoOp? {
      StepKeeps(Send, s.sendQ, s.sendLog, SendOps(s), Send);
      assert SendOps(s') == With(SendOps(s), Send, s'.send);
      assert RecvOps(s') == RecvOps(s);
    } else if s.sendQ.rear != 0 {
      TestSound(s.sendQ, s.sendLog, SendOps(s), Send);
      StartKeeps(Send, s.sendQ, s.sendLog, SendOps(s), Send, GetTested);
      assert SendOps(s') == With(SendOps(s), Send, s'.send);
      assert RecvOps(s') == RecvOps(s);
    }
  }

  lemma LoopStepKeeps(s: State, s': State, seed: Str)
    requires Inv(s, seed) && LoopStep(s, s')
    ensures Inv(s', seed)
  {
    hide QueueInv, TableOf;
    if s.loop.Seeding? {
      StepKeeps(Loop, s.sendQ, s.sendLog, SendOps(s), Send);
      NothingKnown(s, seed);
      assert SendOps(s') == With(SendOps(s), Loop, StepOp(s.sendQ, s.loop.op));
      assert RecvOps(s') == RecvOps(s);
    } else if s.loop.op.NoOp? {
      var x :| s' == s.(loop := Fetching(PutWants(x)));
      StartKeeps(Loop, s.recvQ, s.recvLog, RecvOps(s), Recv, PutWants(x));
      assert RecvOps(s') == With(RecvOps(s), Loop, PutWants(x));
      assert SendOps(s') == SendOps(s);
    } else {
      StepKeeps(Loop, s.recvQ, s.recvLog, RecvOps(s), Recv);
      assert RecvOps(s') == With(RecvOps(s), Loop, StepOp(s.recvQ, s.loop.op));
      assert SendOps(s') == SendOps(s);
    }
  }

  /** Before the seed is out, nothing has come in. */
  lemma NothingKnown(s: State, seed: Str)
    requires Inv(s, seed) && s.loop.Seeding?
    ensures s.table.urls == [] && Pending(s.recv) == [] && s.seen == [] && InHand(s.recv) == []
  {
  }

  lemma RecvGetKeeps(s: State, s': State, seed: Str)
    requires Inv(s, seed) && RecvStep(s, s') && s.recv.Getting? && !s.recv.op.NoOp?
    ensures Inv(s', seed)
  {
    hide QueueInv, TableOf;
    var op := s.recv.op;
    StepKeeps(Recv, s.recvQ, s.recvLog, RecvOps(s), Recv);
    assert RecvOps(s') == With(RecvOps(s), Recv, StepOp(s.recvQ, op));
    assert SendOps(s') == SendOps(s);
    TakenIsInHand(s);
  }

  /** The element taken off the list is the one in hand. */
  lemma TakenIsInHand(s: State)
    requires QueueInv(s.recvQ, s.recvLog, RecvOps(s), Recv) && s.recv.Getting? && !s.recv.op.NoOp? && !IsPut(s.recv.op)
    requires CanStep(s.recvQ, s.recv.op)
    ensures var op := s.recv.op;
            var r' := if op.GetDone? then Persisting(op.x) else Getting(StepOp(s.recvQ, op));
            exists more :: StepLog(s.recvQ, op, s.recvLog).got == s.recvLog.got + more &&
              InHand(r') == InHand(s.recv) + more
  {
    ThreadFacts(s.recvQ, s.recvLog, RecvOps(s), Recv, Recv);
    var op := s.recv.op;
    var more := if op.GetNext? then [op.x] else [];
    assert StepLog(s.recvQ, op, s.recvLog).got == s.recvLog.got + more;
  }

  /** A positive answer numbers exactly the URL that is appended. */
  lemma NewUrl(t: Table, u: Str, linker: int)
    ensures var (t', ri) := Persisted(t, u, linker);
            Numbered(t'.urls) == Numbered(t.urls) + (if ri > 0 then [Item(ri, u)] else []) && (ri > 0 ==> t'.urls != [])
  {
  }

  lemma RecvPersistKeeps(s: State, s': State, seed: Str)
    requires Inv(s, seed) && RecvStep(s, s') && s.recv.Persisting?
    ensures Inv(s', seed)
  {
    hide QueueInv, TableOf, Persisted, Numbered;
    var x := s.recv.x;
    assert s.sendLog.put == SeedPut(s.loop, seed) + Numbered(s.table.urls);
    TableOfOneMore(s.seen, x);
    NewUrl(s.table, x.url, x.id);
    var ri := Persisted(s.table, x.url, x.id).1;
    if ri > 0 {
      StartKeeps(Recv, s.sendQ, s.sendLog, SendOps(s), Send, PutWants(Item(ri, x.url)));
      assert SendOps(s') == With(SendOps(s), Recv, PutWants(Item(ri, x.url)));
    } else {
      assert SendOps(s') == SendOps(s);
    }
    assert RecvOps(s') == RecvOps(s);
  }

  lemma RecvPutKeeps(s: State, s': State, seed: Str)
    requires Inv(s, seed) && RecvStep(s, s') && s.recv.Putting?
    ensures Inv(s', seed)
  {
    hide QueueInv, TableOf;
    StepKeeps(Recv, s.sendQ, s.sendLog, SendOps(s), Send);
    assert SendOps(s') == With(SendOps(s), Recv, StepOp(s.sendQ, s.recv.op));
    assert RecvOps(s') == RecvOps(s);
  }

  lemma RecvTestKeeps(s: State, s': State, seed: Str)
    requires Inv(s, seed) && RecvStep(s, s') && s.recv == Getting(NoOp)
    ensures Inv(s', seed)
  {
    hide QueueInv, TableOf;
    if s.recvQ.rear != 0 {
      TestSound(s.recvQ, s.recvLog, RecvOps(s), Recv);
      StartKeeps(Recv, s.recvQ, s.recvLog, RecvOps(s), Recv, GetTested);
      assert RecvOps(s') == With(RecvOps(s), Recv, GetTested);
      assert SendOps(s') == SendOps(s);
    }
  }

  lemma NextKeeps(s: State, s': State, seed: Str)
    requires Inv(s, seed) && Next(s, s')
    ensures Inv(s', seed)
  {
    hide Inv, SendStep, LoopStep, RecvStep;
    if SendStep(s, s') {
      SendStepKeeps(s, s', seed);
    } else if LoopStep(s, s') {
      LoopStepKeeps(s, s', seed);
    } else {
      match s.recv
      case Getting(op) =>
        if op.NoOp? {
          RecvTestKeeps(s, s', seed);
        } else {
          RecvGetKeeps(s, s', seed);
        }
      case Persisting(_) => RecvPersistKeeps(s, s', seed);
      case Putting(_) => RecvPutKeeps(s, s', seed);
    }
  }

  // ---- over whole runs ----

  ghost predicate IsRun(run: seq<State>, seed: Str) {
    && run != [] && Init(run[0], seed)
    && forall i :: 0 <= i < |run| - 1 ==> Next(run[i], run[i + 1])
  }

  lemma {:induction false} RunKeeps(run: seq<State>, seed: Str, i: nat)
    requires IsRun(run, seed) && i < |run|
    ensures Inv(run[i], seed)
  {
    hide Inv, Init, Next;
    if i == 0 {
      InitHolds(run[0], seed);
    } else {
      RunKeeps(run, seed, i - 1);
      NextKeeps(run[i - 1], run[i], seed);
    }
  }

  // ---- what it means ----

  /** First in, first out: what was put in is what was taken out followed by what is in the list. */
  ghost predicate Fifo(q: Shared, g: Log) {
    Links(q.cells, g.chain) && g.put == g.got + Items(q.cells, g.chain)
  }

  ghost predicate NoCrash(s: State) {
    !s.send.Crashed? && s.recv != Getting(Crashed)
  }

  /** In every interleaving both queues are first-in first-out without loss or duplication, no thread
      follows a null pointer out of a queue that is empty, and the table holds what was received. */
  lemma Safety(run: seq<State>, seed: Str, i: nat)
    requires IsRun(run, seed) && i < |run|
    ensures Fifo(run[i].sendQ, run[i].sendLog) && Fifo(run[i].recvQ, run[i].recvLog) && NoCrash(run[i])
    ensures run[i].table == TableOf(run[i].seen) && run[i].seen <= run[i].recvLog.got
  {
    RunKeeps(run, seed, i);
    var s := run[i];
    ThreadFacts(s.sendQ, s.sendLog, SendOps(s), Send, Send);
    ThreadFacts(s.recvQ, s.recvLog, RecvOps(s), Recv, Recv);
  }

  /** Between two rounds of recv_thread, the elements ever put on the send queue are the seed and then
      every known URL with its number, in the order of the numbers; so they number current_id. */
  lemma SentIsNumbered(run: seq<State>, seed: Str, i: nat)
    requires IsRun(run, seed) && i < |run| && run[i].recv == Getting(NoOp) && run[i].loop.Fetching?
    ensures run[i].sendLog.put == [Item(0, seed)] + Numbered(run[i].table.urls)
    ensures |run[i].sendLog.put| == |run[i].table.urls| + 1
    ensures run[i].sendLog.got <= [Item(0, seed)] + Numbered(run[i].table.urls)
  {
    RunKeeps(run, seed, i);
  }
}
