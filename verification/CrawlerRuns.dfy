/** bcrawler.c: continuations of a run. From any state in which recv_thread can take something, the run
    can go on until it is recorded and, if it is new, numbered and queued for sending; so every list of
    links a crawl may come across is recorded in some run. */
module CrawlerRuns {
  import opened Strings
  import opened UrlQueue
  import opened QueueSteps
  import opened UrlTable
  import opened Crawler
  import opened CrawlerProgress

  // ---- continuations ----

  ghost predicate Path(path: seq<State>, s: State, s': State) {
    && path != [] && path[0] == s && path[|path| - 1] == s'
    && forall i :: 0 <= i < |path| - 1 ==> Next(path[i], path[i + 1])
  }

  /** Some steps of the threads lead from one state to the other. */
  ghost predicate Reaches(s: State, s': State) {
    exists path: seq<State> :: Path(path, s, s')
  }

  lemma PathJoins(p: seq<State>, q: seq<State>, a: State, b: State, c: State)
    requires Path(p, a, b) && Path(q, b, c)
    ensures Path(p + q[1..], a, c)
  {
    hide Next;
    var r := p + q[1..];
    forall i | 0 <= i < |r| - 1
      ensures Next(r[i], r[i + 1])
    {
      if i < |p| - 1 {
        assert r[i] == p[i] && r[i + 1] == p[i + 1];
      } else {
        assert r[i] == q[i - |p| + 1] && r[i + 1] == q[i - |p| + 2];
      }
    }
  }

  lemma ReachesTransitive(a: State, b: State, c: State)
    requires Reaches(a, b) && Reaches(b, c)
    ensures Reaches(a, c)
  {
    hide Next;
    var p: seq<State> :| Path(p, a, b);
    var q: seq<State> :| Path(q, b, c);
    PathJoins(p, q, a, b, c);
    hide Path;
    assert Path(p + q[1..], a, c);
  }

  lemma ReachesOne(s: State, s': State)
    requires Next(s, s')
    ensures Reaches(s, s') && Reaches(s, s)
  {
    hide Next;
    assert Path([s, s'], s, s') && Path([s], s, s);
  }

  lemma ReachesItself(s: State)
    ensures Reaches(s, s)
  {
    hide Next;
    assert Path([s], s, s);
  }

  lemma RunExtends(run: seq<State>, seed: Str, s': State) returns (longer: seq<State>)
    requires IsRun(run, seed) && Reaches(run[|run| - 1], s')
    ensures IsRun(longer, seed) && run <= longer && longer[|longer| - 1] == s'
  {
    hide Next, Init;
    var q: seq<State> :| Path(q, run[|run| - 1], s');
    assert Path(run, run[0], run[|run| - 1]);
    PathJoins(run, q, run[0], run[|run| - 1], s');
    longer := run + q[1..];
  }

  // ---- a thread that runs on to the end of its operation ----

  function StepsLeft(op: Op): nat {
    match op
    case NoOp => 0
    case PutWants(_) => 5
    case PutLocked(_) => 4
    case PutAt(_, _) => 3
    case PutLinked(_) => 2
    case PutMoved => 1
    case GetTested => 8
    case GetLocked => 7
    case GetFirst(_) => 6
    case GetTook(_, _) => 5
    case GetNext(_, _, _) => 4
    case GetUnlinked(_, _) => 3
    case GetCompared(_, _, _) => 2
    case GetDone(_) => 1
    case Crashed => 0
  }

  /** Holding the lock, or about to take a free one. */
  ghost predicate Unhindered(q: Shared, t: Tid, op: Op) {
    if op.PutWants? || op.GetTested? then q.lock == Free else q.lock == Held(t)
  }

  /** What an enqueue has still to link in, and how many elements a dequeue has still to take out. */
  function Bringing(op: Op): seq<Item> {
    match op
    case PutWants(x) => [x]
    case PutLocked(x) => [x]
    case PutAt(_, x) => [x]
    case _ => []
  }

  function Taking(op: Op): nat {
    if op.GetTested? || op.GetLocked? || op.GetFirst? || op.GetTook? || op.GetNext? then 1 else 0
  }

  /** One step of an unhindered operation, seen from the queue. */
  lemma OpStep(t: Tid, q: Shared, g: Log, op: Op)
    requires op != NoOp && op != Crashed && Unhindered(q, t, op) && (op.GetNext? ==> g.chain != [])
    ensures CanStep(q, op)
    ensures var op', q' := StepOp(q, op), StepShared(t, q, op);
            && (op' == NoOp ==> q'.lock == Free && (op == PutMoved || op.GetDone?))
            && (op' != NoOp && op' != Crashed ==> Unhindered(q', t, op') && StepsLeft(op') < StepsLeft(op))
            && (IsPut(op) ==> IsPut(op') || op' == NoOp) && (IsGet(op) ==> IsGet(op') || op' == NoOp)
    ensures var op', g' := StepOp(q, op), StepLog(q, op, g);
            && g'.put + Bringing(op') == g.put + Bringing(op)
            && (op' != Crashed ==> |g'.got| + Taking(op') == |g.got| + Taking(op)) && g.got <= g'.got
            && (IsGet(op) ==> g'.put == g.put) && (IsPut(op) ==> g'.got == g.got)
  {
  }

  /** Only the send queue and what send_thread does may differ; nothing has been put in. */
  ghost predicate OnlySending(s: State, s': State) {
    && s'.recvQ == s.recvQ && s'.recvLog == s.recvLog && s'.table == s.table && s'.seen == s.seen
    && s'.loop == s.loop && s'.recv == s.recv && s'.sendLog.put == s.sendLog.put
  }

  lemma SendOneStep(s: State, seed: Str) returns (s': State)
    requires Inv(s, seed) && s.send != NoOp && Unhindered(s.sendQ, Send, s.send)
    ensures s' == SendGoesOn(s) && Reaches(s, s') && Inv(s', seed) && OnlySending(s, s')
    ensures s'.send == NoOp ==> s'.sendQ.lock == Free
    ensures s'.send != NoOp ==> Unhindered(s'.sendQ, Send, s'.send) && StepsLeft(s'.send) < StepsLeft(s.send)
    ensures |s'.sendLog.got| + Taking(s'.send) == |s.sendLog.got| + Taking(s.send) && s.sendLog.got <= s'.sendLog.got
  {
    s' := SendGoesOn(s);
    ThreadFacts(s.sendQ, s.sendLog, SendOps(s), Send, Send);
    OpStep(Send, s.sendQ, s.sendLog, s.send);
    hide QueueInv, TableOf, StepOp, StepShared, StepLog, CanStep, Unhindered, StepsLeft, Bringing, Taking;
    assert SendStep(s, s');
    NextKeeps(s, s', seed);
    ReachesOne(s, s');
    ThreadFacts(s'.sendQ, s'.sendLog, SendOps(s'), Send, Send);
  }

  /** dequeue by send_thread runs to its end. */
  lemma {:induction false} SendFinishes(s: State, seed: Str) returns (s': State)
    requires Inv(s, seed) && s.send != NoOp && Unhindered(s.sendQ, Send, s.send)
    ensures Reaches(s, s') && Inv(s', seed) && OnlySending(s, s')
    ensures s'.send == NoOp && s'.sendQ.lock == Free
    ensures |s'.sendLog.got| == |s.sendLog.got| + Taking(s.send) && s.sendLog.got <= s'.sendLog.got
    decreases StepsLeft(s.send)
  {
    hide Inv, SendGoesOn, Unhindered, StepsLeft, Reaches;
    var s1 := SendOneStep(s, seed);
    if s1.send == NoOp {
      s' := s1;
    } else {
      s' := SendFinishes(s1, seed);
      ReachesTransitive(s, s1, s');
    }
  }

  /** Only the receive queue and what recv_thread does may differ; nothing has been put in. */
  ghost predicate OnlyReceiving(s: State, s': State) {
    && s'.sendQ == s.sendQ && s'.sendLog == s.sendLog && s'.table == s.table && s'.seen == s.seen
    && s'.loop == s.loop && s'.send == s.send && s'.recvLog.put == s.recvLog.put
  }

  lemma RecvOneStep(s: State, seed: Str) returns (s': State)
    requires Inv(s, seed) && s.recv.Getting? && s.recv.op != NoOp && Unhindered(s.recvQ, Recv, s.recv.op)
    ensures Reaches(s, s') && Inv(s', seed) && OnlyReceiving(s, s') && (s'.recv.Persisting? || s'.recv.Getting?)
    ensures s'.recv.Persisting? ==> s'.recvQ.lock == Free
    ensures s'.recv.Getting? ==>
              && s'.recv.op != NoOp && Unhindered(s'.recvQ, Recv, s'.recv.op)
              && StepsLeft(s'.recv.op) < StepsLeft(s.recv.op)
  {
    s' := RecvGoesOn(s);
    ThreadFacts(s.recvQ, s.recvLog, RecvOps(s), Recv, Recv);
    GetIsNoPut(s, seed);
    OpStep(Recv, s.recvQ, s.recvLog, s.recv.op);
    GetEnds(s.recvQ, s.recv.op);
    hide QueueInv, TableOf, StepOp, StepShared, StepLog, CanStep, Unhindered, StepsLeft, Bringing, Taking;
    assert RecvStep(s, s');
    NextKeeps(s, s', seed);
    ReachesOne(s, s');
    ThreadFacts(s'.recvQ, s'.recvLog, RecvOps(s'), Recv, Recv);
  }

  lemma GetIsNoPut(s: State, seed: Str)
    requires Inv(s, seed) && s.recv.Getting?
    ensures !IsPut(s.recv.op) && (s.recv.op != NoOp ==> IsGet(s.recv.op))
  {
  }

  lemma GetEnds(q: Shared, op: Op)
    requires IsGet(op)
    ensures StepOp(q, op) == NoOp <==> op.GetDone? || op.Crashed?
    ensures op.GetDone? ==> forall t :: StepShared(t, q, op).lock == Free
  {
  }

  /** dequeue by recv_thread runs to its end, with an element in hand. */
  lemma {:induction false} RecvTakes(s: State, seed: Str) returns (s': State)
    requires Inv(s, seed) && s.recv.Getting? && s.recv.op != NoOp && Unhindered(s.recvQ, Recv, s.recv.op)
    ensures Reaches(s, s') && Inv(s', seed) && OnlyReceiving(s, s')
    ensures s'.recv.Persisting? && s'.recvQ.lock == Free
    decreases StepsLeft(s.recv.op)
  {
    hide Inv, Unhindered, StepsLeft, Reaches;
    var s1 := RecvOneStep(s, seed);
    if s1.recv.Persisting? {
      s' := s1;
    } else {
      s' := RecvTakes(s1, seed);
      ReachesTransitive(s, s1, s');
    }
  }

  /** Only the send queue and where recv_thread is may differ; nothing has been taken out. */
  ghost predicate OnlyQueueing(s: State, s': State) {
    && s'.recvQ == s.recvQ && s'.recvLog == s.recvLog && s'.table == s.table && s'.seen == s.seen
    && s'.loop == s.loop && s'.send == s.send && s'.sendLog.got == s.sendLog.got
  }

  lemma QueueOneStep(s: State, seed: Str) returns (s': State)
    requires Inv(s, seed) && s.recv.Putting? && Unhindered(s.sendQ, Recv, s.recv.op)
    ensures Reaches(s, s') && Inv(s', seed) && OnlyQueueing(s, s')
    ensures s'.recv.Putting? || (s'.recv == Getting(NoOp) && s'.sendQ.lock == Free)
    ensures s'.recv.Putting? ==>
              Unhindered(s'.sendQ, Recv, s'.recv.op) && StepsLeft(s'.recv.op) < StepsLeft(s.recv.op)
  {
    s' := RecvGoesOn(s);
    PutIsPut(s, seed);
    OpStep(Recv, s.sendQ, s.sendLog, s.recv.op);
    hide QueueInv, TableOf, StepOp, StepShared, StepLog, CanStep, Unhindered, StepsLeft, Bringing, Taking;
    assert RecvStep(s, s');
    NextKeeps(s, s', seed);
    ReachesOne(s, s');
    if s'.recv.Putting? {
      PutIsPut(s', seed);
    }
  }

  lemma PutIsPut(s: State, seed: Str)
    requires Inv(s, seed) && s.recv.Putting?
    ensures IsPut(s.recv.op)
  {
  }

  /** enqueue by recv_thread runs to its end. */
  lemma {:induction false} RecvQueues(s: State, seed: Str) returns (s': State)
    requires Inv(s, seed) && s.recv.Putting? && Unhindered(s.sendQ, Recv, s.recv.op)
    ensures Reaches(s, s') && Inv(s', seed) && OnlyQueueing(s, s')
    ensures s'.recv == Getting(NoOp) && s'.sendQ.lock == Free
    decreases StepsLeft(s.recv.op)
  {
    hide Inv, Unhindered, StepsLeft, Reaches;
    var s1 := QueueOneStep(s, seed);
    if s1.recv == Getting(NoOp) {
      s' := s1;
    } else {
      s' := RecvQueues(s1, seed);
      ReachesTransitive(s, s1, s');
    }
  }

  /** Only what the event loop does may differ, and what it has put on a queue. */
  ghost predicate OnlyLooping(s: State, s': State) {
    && s'.table == s.table && s'.seen == s.seen && s'.recv == s.recv && s'.send == s.send
    && s'.sendLog.got == s.sendLog.got && s'.recvLog.got == s.recvLog.got
  }

  lemma LoopOneStep(s: State, seed: Str) returns (s': State)
    requires Inv(s, seed) && s.loop.op != NoOp
    requires Unhindered(if s.loop.Seeding? then s.sendQ else s.recvQ, Loop, s.loop.op)
    ensures Reaches(s, s') && Inv(s', seed) && OnlyLooping(s, s')
    ensures s.loop.Seeding? ==> s'.recvQ == s.recvQ && s'.recvLog == s.recvLog
    ensures s.loop.Fetching? ==>
              && s'.loop.Fetching? && s'.sendQ == s.sendQ && s'.sendLog == s.sendLog
              && s'.recvLog.put + Bringing(s'.loop.op) == s.recvLog.put + Bringing(s.loop.op)
    ensures s'.loop == Fetching(NoOp) ==> (if s.loop.Seeding? then s'.sendQ else s'.recvQ).lock == Free
    ensures s'.loop.op == NoOp ==> s'.loop == Fetching(NoOp)
    ensures s'.loop.op != NoOp ==>
              && (s'.loop.Seeding? <==> s.loop.Seeding?) && StepsLeft(s'.loop.op) < StepsLeft(s.loop.op)
              && Unhindered(if s'.loop.Seeding? then s'.sendQ else s'.recvQ, Loop, s'.loop.op)
  {
    s' := LoopGoesOn(s);
    LoopIsPut(s, seed);
    if s.loop.Seeding? {
      OpStep(Loop, s.sendQ, s.sendLog, s.loop.op);
    } else {
      OpStep(Loop, s.recvQ, s.recvLog, s.loop.op);
    }
    hide QueueInv, TableOf, StepOp, StepShared, StepLog, CanStep, Unhindered, StepsLeft, Bringing, Taking;
    assert LoopStep(s, s');
    NextKeeps(s, s', seed);
    ReachesOne(s, s');
    if s'.loop.op != NoOp {
      LoopIsPut(s', seed);
    }
  }

  lemma LoopIsPut(s: State, seed: Str)
    requires Inv(s, seed)
    ensures s.loop.op != NoOp ==> IsPut(s.loop.op)
  {
  }

  /** enqueue by the event loop runs to its end. */
  lemma {:induction false} LoopFinishes(s: State, seed: Str) returns (s': State)
    requires Inv(s, seed) && s.loop.op != NoOp
    requires Unhindered(if s.loop.Seeding? then s.sendQ else s.recvQ, Loop, s.loop.op)
    ensures Reaches(s, s') && Inv(s', seed) && OnlyLooping(s, s') && s'.loop == Fetching(NoOp)
    ensures s.loop.Seeding? ==> s'.recvQ == s.recvQ && s'.recvLog == s.recvLog && s'.sendQ.lock == Free
    ensures s.loop.Fetching? ==>
              && s'.sendQ == s.sendQ && s'.sendLog == s.sendLog && s'.recvQ.lock == Free
              && s'.recvLog.put == s.recvLog.put + Bringing(s.loop.op)
    decreases StepsLeft(s.loop.op)
  {
    hide Inv, Unhindered, StepsLeft, Reaches;
    var s1 := LoopOneStep(s, seed);
    if s1.loop.op == NoOp {
      s' := s1;
      NothingLeft(s1.recvLog.put);
    } else {
      s' := LoopFinishes(s1, seed);
      ReachesTransitive(s, s1, s');
    }
  }

  lemma NothingLeft(put: seq<Item>)
    ensures put + Bringing(NoOp) == put
  {
  }

  // ---- one element, from the receive queue to the send queue ----

  ghost function FirstWaiting(q: Shared, g: Log): Item
    requires Links(q.cells, g.chain) && g.chain != []
  {
    Items(q.cells, g.chain)[0]
  }

  /** Until recv_thread has taken it, the element next to be taken is the first one in the list. */
  lemma InHandIsFirst(s: State, s': State, seed: Str)
    requires Inv(s, seed) && Inv(s', seed) && OnlyReceiving(s, s')
    requires InHand(s.recv) == [] && s.recvLog.chain != [] && s'.recv.Persisting?
    ensures Links(s.recvQ.cells, s.recvLog.chain) && s'.recv.x == FirstWaiting(s.recvQ, s.recvLog)
    ensures |s'.recvLog.chain| == |s.recvLog.chain| - 1
  {
    hide Links, RearOk, OpOk, InCritical, TableOf, Shapes, StepsLeft;
    ItemsLength(s.recvQ, s.recvLog.chain, s.recvQ.cells);
    ItemsLength(s'.recvQ, s'.recvLog.chain, s'.recvQ.cells);
    var put := s.recvLog.put;
    assert put == s.seen + Items(s.recvQ.cells, s.recvLog.chain);
    assert put == s.seen + [s'.recv.x] + Items(s'.recvQ.cells, s'.recvLog.chain);
    assert put[|s.seen|] == s'.recv.x;
    assert |put| == |s.seen| + |s.recvLog.chain|;
  }

  lemma ItemsLength(q: Shared, chain: seq<nat>, cells: seq<Cell>)
    requires Links(cells, chain)
    ensures (forall i :: 0 <= i < |chain| ==> chain[i] < |cells|) && |Items(cells, chain)| == |chain|
  {
  }

  /** recv_thread is between two rounds and has something to take. */
  ghost predicate HasWork(s: State) {
    s.recv == Getting(NoOp) && s.recvQ.lock == Free && s.recvLog.chain != []
  }

  lemma StartTaking(s: State, seed: Str) returns (s': State)
    requires Inv(s, seed) && HasWork(s)
    ensures s' == s.(recv := Getting(GetTested)) && Reaches(s, s') && Inv(s', seed)
  {
    hide QueueInv, TableOf;
    s' := s.(recv := Getting(GetTested));
    IdleConsumerStarts(s, seed);
    assert Next(s, s');
    NextKeeps(s, s', seed);
    ReachesOne(s, s');
  }

  lemma Record(s: State, seed: Str) returns (s': State)
    requires Inv(s, seed) && s.recv.Persisting?
    ensures s' == Recorded(s) && Reaches(s, s') && Inv(s', seed)
  {
    s' := Recorded(s);
    PersistStep(s);
    hide Inv, Recorded, RecvStep;
    assert Next(s, s') by {
      assert RecvStep(s, s');
    }
    NextKeeps(s, s', seed);
    ReachesOne(s, s');
  }

  /** The send queue is free, or send_thread holds it and lets go of it. */
  lemma SendLetsGo(s: State, seed: Str) returns (s': State)
    requires Inv(s, seed) && s.recv.Putting? && s.recv.op.PutWants? && s.loop.Fetching?
    ensures Reaches(s, s') && Inv(s', seed) && OnlySending(s, s') && s'.sendQ.lock == Free
    ensures s.send == NoOp ==> s'.send == NoOp
  {
    if s.sendQ.lock == Free {
      s' := s;
      ReachesItself(s);
    } else {
      HolderIsSend(s, seed);
      hide Inv, Reaches, OnlySending;
      s' := SendFinishes(s, seed);
    }
  }

  lemma HolderIsSend(s: State, seed: Str)
    requires Inv(s, seed) && s.recv.Putting? && s.recv.op.PutWants? && s.loop.Fetching? && s.sendQ.lock != Free
    ensures s.send != NoOp && Unhindered(s.sendQ, Send, s.send)
  {
    ThreadFacts(s.sendQ, s.sendLog, SendOps(s), Send, Send);
    ThreadFacts(s.sendQ, s.sendLog, SendOps(s), Send, Recv);
    ThreadFacts(s.sendQ, s.sendLog, SendOps(s), Send, Loop);
  }

  /** What became of the first element waiting: it is recorded, and, if its URL is new, on the send queue
      with the next number. */
  ghost predicate Served(s: State, s': State)
    requires Links(s.recvQ.cells, s.recvLog.chain) && s.recvLog.chain != []
  {
    var x := FirstWaiting(s.recvQ, s.recvLog);
    && s'.recv == Getting(NoOp) && s'.recvQ.lock == Free && s'.loop == s.loop && (s.send == NoOp ==> s'.send == NoOp)
    && s'.seen == s.seen + [x]
    && s'.table == Persisted(s.table, x.url, x.id).0
    && s'.sendLog.put == s.sendLog.put + NewlyQueued(s.table, x)
    && s'.recvLog.put == s.recvLog.put && |s'.recvLog.chain| == |s.recvLog.chain| - 1
  }

  ghost function NewlyQueued(t: Table, x: Item): seq<Item> {
    if x.url != [] && x.url !in t.urls then [Item(|t.urls| + 1, x.url)] else []
  }

  lemma WorkIsFetched(s: State, seed: Str)
    requires Inv(s, seed) && HasWork(s)
    ensures s.loop.Fetching? && Links(s.recvQ.cells, s.recvLog.chain)
  {
    if s.loop.Seeding? {
      NothingKnown(s, seed);
      ItemsLength(s.recvQ, s.recvLog.chain, s.recvQ.cells);
    }
  }

  lemma NewlyQueuedIs(t: Table, x: Item)
    ensures var (t', ri) := Persisted(t, x.url, x.id);
            && (ri > 0 <==> NewlyQueued(t, x) != []) && (ri > 0 ==> NewlyQueued(t, x) == [Item(ri, x.url)])
            && Numbered(t'.urls) == Numbered(t.urls) + NewlyQueued(t, x)
  {
    NewUrl(t, x.url, x.id);
    hide Numbered;
  }

  /** Between two rounds of recv_thread, what has been put on the send queue is determined by the table. */
  lemma PutByTable(s: State, seed: Str)
    requires Inv(s, seed) && s.recv == Getting(NoOp)
    ensures s.sendLog.put == SeedPut(s.loop, seed) + Numbered(s.table.urls)
  {
  }

  lemma PutGrows(s: State, s': State, x: Item, seed: Str)
    requires Inv(s, seed) && s.recv == Getting(NoOp) && Inv(s', seed) && s'.recv == Getting(NoOp) && s'.loop == s.loop
    requires s'.table == Persisted(s.table, x.url, x.id).0
    ensures s'.sendLog.put == s.sendLog.put + NewlyQueued(s.table, x)
  {
    PutByTable(s, seed);
    PutByTable(s', seed);
    NewlyQueuedIs(s.table, x);
    hide Inv, Numbered, SeedPut, Persisted, NewlyQueued;
  }

  /** Whatever the other threads are doing, the first element waiting can be served. */
  lemma Serve(s: State, seed: Str) returns (s': State)
    requires Inv(s, seed) && HasWork(s)
    ensures Links(s.recvQ.cells, s.recvLog.chain) && Reaches(s, s') && Inv(s', seed) && Served(s, s')
  {
    WorkIsFetched(s, seed);
    hide Inv, Reaches, Links, Persisted, NewlyQueued, FirstWaiting;
    var s1 := StartTaking(s, seed);
    var s2 := RecvTakes(s1, seed);
    ReachesTransitive(s, s1, s2);
    InHandIsFirst(s, s2, seed);
    var s3 := Record(s2, seed);
    ReachesTransitive(s, s2, s3);
    if s3.recv == Getting(NoOp) {
      s' := s3;
    } else {
      var s4 := SendLetsGo(s3, seed);
      ReachesTransitive(s, s3, s4);
      s' := RecvQueues(s4, seed);
      ReachesTransitive(s, s4, s');
    }
    PutGrows(s, s', s2.recv.x, seed);
  }

  /** From every state of a run in which recv_thread has something to take, some continuation of the run
      serves the first element waiting. */
  lemma RunServes(run: seq<State>, seed: Str) returns (longer: seq<State>)
    requires IsRun(run, seed) && HasWork(run[|run| - 1])
    ensures IsRun(longer, seed) && run <= longer
    ensures var s := run[|run| - 1];
            Links(s.recvQ.cells, s.recvLog.chain) && Served(s, longer[|longer| - 1])
  {
    RunKeeps(run, seed, |run| - 1);
    hide Inv, Init, Next, HasWork, Served, Reaches, Links;
    var s' := Serve(run[|run| - 1], seed);
    longer := RunExtends(run, seed, s');
  }

  // ---- sending ----

  /** send_thread is between two rounds and has something to send. */
  ghost predicate HasMail(s: State) {
    s.send == NoOp && s.sendQ.lock == Free && s.sendLog.chain != []
  }

  ghost predicate Sent(s: State, s': State)
    requires Links(s.sendQ.cells, s.sendLog.chain) && s.sendLog.chain != []
  {
    && s'.send == NoOp && s'.sendQ.lock == Free && OnlySending(s, s')
    && s'.sendLog.got == s.sendLog.got + [FirstWaiting(s.sendQ, s.sendLog)]
    && |s'.sendLog.chain| == |s.sendLog.chain| - 1
  }

  lemma FirstIsGot(s: State, s': State, seed: Str)
    requires Inv(s, seed) && Inv(s', seed) && s'.sendLog.put == s.sendLog.put && s.sendLog.chain != []
    requires |s'.sendLog.got| == |s.sendLog.got| + 1 && s.sendLog.got <= s'.sendLog.got
    ensures Links(s.sendQ.cells, s.sendLog.chain)
    ensures s'.sendLog.got == s.sendLog.got + [FirstWaiting(s.sendQ, s.sendLog)]
    ensures |s'.sendLog.chain| == |s.sendLog.chain| - 1
  {
    hide Links, RearOk, OpOk, InCritical, TableOf, Shapes;
    ItemsLength(s.sendQ, s.sendLog.chain, s.sendQ.cells);
    ItemsLength(s'.sendQ, s'.sendLog.chain, s'.sendQ.cells);
    var put, n := s.sendLog.put, |s.sendLog.got|;
    assert put == s.sendLog.got + Items(s.sendQ.cells, s.sendLog.chain);
    assert put == s'.sendLog.got + Items(s'.sendQ.cells, s'.sendLog.chain);
    assert put[n] == s'.sendLog.got[n] && s'.sendLog.got == s'.sendLog.got[..n] + [s'.sendLog.got[n]];
  }

  lemma StartSending(s: State, seed: Str) returns (s': State)
    requires Inv(s, seed) && HasMail(s)
    ensures s' == s.(send := GetTested) && Reaches(s, s') && Inv(s', seed)
  {
    hide QueueInv, TableOf;
    s' := s.(send := GetTested);
    IdleConsumerStarts(s, seed);
    assert Next(s, s');
    NextKeeps(s, s', seed);
    ReachesOne(s, s');
  }

  lemma Mail(s: State, seed: Str) returns (s': State)
    requires Inv(s, seed) && HasMail(s)
    ensures Links(s.sendQ.cells, s.sendLog.chain) && Reaches(s, s') && Inv(s', seed) && Sent(s, s')
  {
    hide Inv, Reaches, Links, FirstWaiting;
    var s1 := StartSending(s, seed);
    s' := SendFinishes(s1, seed);
    ReachesTransitive(s, s1, s');
    FirstIsGot(s, s', seed);
  }

  /** From every state of a run in which send_thread has something to send, some continuation of the run
      takes the first element and changes nothing else. */
  lemma RunSends(run: seq<State>, seed: Str) returns (longer: seq<State>)
    requires IsRun(run, seed) && HasMail(run[|run| - 1])
    ensures IsRun(longer, seed) && run <= longer
    ensures var s := run[|run| - 1];
            Links(s.sendQ.cells, s.sendLog.chain) && Sent(s, longer[|longer| - 1])
  {
    RunKeeps(run, seed, |run| - 1);
    hide Inv, Init, Next, HasMail, Sent, Reaches, Links;
    var s' := Mail(run[|run| - 1], seed);
    longer := RunExtends(run, seed, s');
  }

  // ---- whole crawls ----

  /** All threads are between two rounds, and nothing is left on the receive queue. */
  ghost predicate Quiet(s: State) {
    s.loop == Fetching(NoOp) && s.recv == Getting(NoOp) && s.send == NoOp && s.recvLog.chain == []
  }

  lemma QuietIsFree(s: State, seed: Str)
    requires Inv(s, seed) && s.loop == Fetching(NoOp) && s.recv == Getting(NoOp) && s.send == NoOp
    ensures s.recvQ.lock == Free && s.sendQ.lock == Free
  {
    forall t
      ensures s.recvQ.lock != Held(t) && s.sendQ.lock != Held(t)
    {
      ThreadFacts(s.recvQ, s.recvLog, RecvOps(s), Recv, t);
      ThreadFacts(s.sendQ, s.sendLog, SendOps(s), Send, t);
    }
  }

  function Initial(seed: Str): State {
    State(EmptyQueue(), EmptyQueue(), EMPTY, Seeding(PutWants(Item(0, seed))), Getting(NoOp), NoOp,
          Log([], [], []), Log([], [], []), [])
  }

  /** The seed is queued for sending. */
  lemma SeedQueued(seed: Str) returns (s: State)
    ensures Init(Initial(seed), seed) && Reaches(Initial(seed), s) && Inv(s, seed) && Quiet(s) && s.seen == []
  {
    InitHolds(Initial(seed), seed);
    hide Inv, Reaches;
    s := LoopFinishes(Initial(seed), seed);
  }

  /** A page brings a link. */
  lemma Deliver(s: State, seed: Str, x: Item) returns (s': State)
    requires Inv(s, seed) && Quiet(s)
    ensures Reaches(s, s') && Inv(s', seed) && HasWork(s') && s'.seen == s.seen
    ensures s'.loop == Fetching(NoOp) && s'.send == NoOp
    ensures Links(s'.recvQ.cells, s'.recvLog.chain)
    ensures FirstWaiting(s'.recvQ, s'.recvLog) == x && |s'.recvLog.chain| == 1
  {
    QuietIsFree(s, seed);
    var s1 := s.(loop := Fetching(PutWants(x)));
    assert LoopStep(s, s1) && Next(s, s1);
    NextKeeps(s, s1, seed);
    ReachesOne(s, s1);
    hide Inv, Reaches, Next, LoopStep;
    s' := LoopFinishes(s1, seed);
    ReachesTransitive(s, s1, s');
    OnlyOneWaiting(s, s', seed, x);
  }

  lemma OnlyOneWaiting(s: State, s': State, seed: Str, x: Item)
    requires Inv(s, seed) && Inv(s', seed) && s.recvLog.chain == []
    requires s'.recvLog.put == s.recvLog.put + [x] && s'.recvLog.got == s.recvLog.got
    ensures Links(s'.recvQ.cells, s'.recvLog.chain) && |s'.recvLog.chain| == 1
    ensures FirstWaiting(s'.recvQ, s'.recvLog) == x
  {
    hide Links, RearOk, OpOk, InCritical, TableOf, Shapes;
    ItemsLength(s.recvQ, s.recvLog.chain, s.recvQ.cells);
    ItemsLength(s'.recvQ, s'.recvLog.chain, s'.recvQ.cells);
    assert s.recvLog.put == s.recvLog.got;
    var put, n := s'.recvLog.put, |s.recvLog.got|;
    assert put == s.recvLog.got + Items(s'.recvQ.cells, s'.recvLog.chain);
    assert |put| == n + 1 && put[n] == x;
  }

  /** Any list of links can be received and recorded, one after the other. */
  lemma {:induction false} Crawl(seed: Str, items: seq<Item>) returns (s: State)
    ensures Reaches(Initial(seed), s) && Inv(s, seed) && Quiet(s) && s.seen == items
  {
    hide Inv, Reaches, Init, Links, FirstWaiting, Persisted, NewlyQueued, Initial;
    if items == [] {
      s := SeedQueued(seed);
    } else {
      var n := |items| - 1;
      var s0 := Crawl(seed, items[..n]);
      var s1 := Deliver(s0, seed, items[n]);
      ReachesTransitive(Initial(seed), s0, s1);
      s := Serve(s1, seed);
      ReachesTransitive(Initial(seed), s1, s);
      assert items == items[..n] + [items[n]];
    }
  }

  /** Everything on the send queue can be sent. */
  lemma {:induction false} SendAll(s: State, seed: Str) returns (s': State)
    requires Inv(s, seed) && Quiet(s)
    ensures Reaches(s, s') && Inv(s', seed) && Quiet(s') && s'.seen == s.seen && s'.sendLog.chain == []
    decreases |s.sendLog.chain|
  {
    hide Inv, Reaches, Links, FirstWaiting;
    if s.sendLog.chain == [] {
      s' := s;
      ReachesItself(s);
    } else {
      QuietIsFree(s, seed);
      var s1 := Mail(s, seed);
      s' := SendAll(s1, seed);
      ReachesTransitive(s, s1, s');
    }
  }

  lemma AllGot(s: State, seed: Str)
    requires Inv(s, seed) && Quiet(s) && s.sendLog.chain == []
    ensures s.table == TableOf(s.seen) && s.sendLog.got == [Item(0, seed)] + Numbered(s.table.urls)
  {
    PutByTable(s, seed);
  }

  /** For every seed and every list of links there is a run in which exactly those are recorded, in this
      order, and the seed and every URL among them are sent, each new one once, in the order of their
      numbers. */
  lemma EveryCrawlHappens(seed: Str, items: seq<Item>) returns (run: seq<State>)
    ensures IsRun(run, seed)
    ensures var s := run[|run| - 1];
            && s.seen == items && s.table == TableOf(items)
            && s.sendLog.got == [Item(0, seed)] + Numbered(TableOf(items).urls)
  {
    hide Inv, Next, Reaches, TableOf, Numbered;
    var s := Crawl(seed, items);
    var s' := SendAll(s, seed);
    ReachesTransitive(Initial(seed), s, s');
    AllGot(s', seed);
    StartsRun(seed);
    run := RunExtends([Initial(seed)], seed, s');
  }

  lemma StartsRun(seed: Str)
    ensures IsRun([Initial(seed)], seed)
  {
  }
}
