/** bcrawler.c: the crawler does not only keep its invariant, it gets on. A thread inside enqueue or
    dequeue is held up by nothing but a lock that another thread holds; what is received can be
    recorded, numbered and sent, whatever it is. */
module CrawlerProgress {
  import opened Strings
  import opened UrlQueue
  import opened QueueSteps
  import opened UrlTable
  import opened Crawler

  ghost predicate ThreadStep(t: Tid, s: State, s': State) {
    match t
    case Loop => LoopStep(s, s')
    case Recv => RecvStep(s, s')
    case Send => SendStep(s, s')
  }

  // ---- one step ----

  predicate MayStep(q: Shared, t: Tid) {
    q.lock == Free || q.lock == Held(t)
  }

  /** The operation a thread is in goes on: the state after its next step. */
  ghost function RecvGoesOn(s: State): State
    requires !s.recv.Persisting?
  {
    match s.recv
    case Getting(op) =>
      RecvQueueStep(s, Recv, op).(recv := if op.GetDone? then Persisting(op.x) else Getting(StepOp(s.recvQ, op)))
    case Putting(op) =>
      var op' := StepOp(s.sendQ, op);
      SendQueueStep(s, Recv, op).(recv := if op'.NoOp? then Getting(NoOp) else Putting(op'))
  }

  ghost function SendGoesOn(s: State): State {
    SendQueueStep(s, Send, s.send).(send := StepOp(s.sendQ, s.send))
  }

  ghost function LoopGoesOn(s: State): State {
    match s.loop
    case Seeding(op) =>
      var op' := StepOp(s.sendQ, op);
      SendQueueStep(s, Loop, op).(loop := if op'.NoOp? then Fetching(NoOp) else Seeding(op'))
    case Fetching(op) => RecvQueueStep(s, Loop, op).(loop := Fetching(StepOp(s.recvQ, op)))
  }

  lemma OpMoves(q: Shared, op: Op)
    requires op != NoOp
    ensures StepOp(q, op) != op
  {
  }

  /** Only a lock that another thread holds keeps an operation from its next step. */
  lemma OpCanStep(q: Shared, g: Log, ops: Ops, consumer: Tid, t: Tid)
    requires QueueInv(q, g, ops, consumer) && Of(ops, t) != NoOp && MayStep(q, t)
    ensures CanStep(q, Of(ops, t))
  {
    ThreadFacts(q, g, ops, consumer, t);
  }

  lemma LoopSteps(s: State, seed: Str)
    requires Inv(s, seed)
    ensures Of(SendOps(s), Loop) != NoOp && MayStep(s.sendQ, Loop) ==> LoopStep(s, LoopGoesOn(s)) && LoopGoesOn(s) != s
    ensures Of(RecvOps(s), Loop) != NoOp && MayStep(s.recvQ, Loop) ==> LoopStep(s, LoopGoesOn(s)) && LoopGoesOn(s) != s
  {
    hide QueueInv, TableOf, StepOp, StepShared, StepLog, CanStep, Shapes;
    if Of(SendOps(s), Loop) != NoOp && MayStep(s.sendQ, Loop) {
      OpCanStep(s.sendQ, s.sendLog, SendOps(s), Send, Loop);
      OpMoves(s.sendQ, s.loop.op);
    }
    if Of(RecvOps(s), Loop) != NoOp && MayStep(s.recvQ, Loop) {
      OpCanStep(s.recvQ, s.recvLog, RecvOps(s), Recv, Loop);
      OpMoves(s.recvQ, s.loop.op);
    }
  }

  lemma RecvSteps(s: State, seed: Str)
    requires Inv(s, seed)
    ensures Of(SendOps(s), Recv) != NoOp && MayStep(s.sendQ, Recv) ==>
              s.recv.Putting? && RecvStep(s, RecvGoesOn(s)) && RecvGoesOn(s) != s
    ensures Of(RecvOps(s), Recv) != NoOp && MayStep(s.recvQ, Recv) ==>
              s.recv.Getting? && RecvStep(s, RecvGoesOn(s)) && RecvGoesOn(s) != s
  {
    hide QueueInv, TableOf, StepOp, StepShared, StepLog, CanStep, Shapes;
    if Of(SendOps(s), Recv) != NoOp && MayStep(s.sendQ, Recv) {
      OpCanStep(s.sendQ, s.sendLog, SendOps(s), Send, Recv);
      OpMoves(s.sendQ, s.recv.op);
    }
    if Of(RecvOps(s), Recv) != NoOp && MayStep(s.recvQ, Recv) {
      OpCanStep(s.recvQ, s.recvLog, RecvOps(s), Recv, Recv);
      OpMoves(s.recvQ, s.recv.op);
    }
  }

  lemma SendSteps(s: State, seed: Str)
    requires Inv(s, seed)
    ensures s.send != NoOp && MayStep(s.sendQ, Send) ==> SendStep(s, SendGoesOn(s)) && SendGoesOn(s) != s
  {
    hide QueueInv, TableOf, StepOp, StepShared, StepLog, CanStep, Shapes;
    if s.send != NoOp && MayStep(s.sendQ, Send) {
      OpCanStep(s.sendQ, s.sendLog, SendOps(s), Send, Send);
      OpMoves(s.sendQ, s.send);
    }
  }

  /** A thread inside enqueue or dequeue can step when the lock is free or its own. */
  lemma RunningThreadSteps(s: State, seed: Str, t: Tid)
    requires Inv(s, seed)
    ensures Of(SendOps(s), t) != NoOp && MayStep(s.sendQ, t) ==> exists s' :: ThreadStep(t, s, s') && s' != s
    ensures Of(RecvOps(s), t) != NoOp && MayStep(s.recvQ, t) ==> exists s' :: ThreadStep(t, s, s') && s' != s
  {
    LoopSteps(s, seed);
    RecvSteps(s, seed);
    SendSteps(s, seed);
    hide Inv, LoopStep, RecvStep, SendStep, LoopGoesOn, RecvGoesOn, SendGoesOn, MayStep;
    match t
    case Loop =>
      if (Of(SendOps(s), t) != NoOp && MayStep(s.sendQ, t)) || (Of(RecvOps(s), t) != NoOp && MayStep(s.recvQ, t)) {
        assert ThreadStep(t, s, LoopGoesOn(s));
      }
    case Recv =>
      if (Of(SendOps(s), t) != NoOp && MayStep(s.sendQ, t)) || (Of(RecvOps(s), t) != NoOp && MayStep(s.recvQ, t)) {
        assert ThreadStep(t, s, RecvGoesOn(s));
      }
    case Send =>
      if s.send != NoOp && MayStep(s.sendQ, t) {
        assert ThreadStep(t, s, SendGoesOn(s));
      }
  }

  /** With the lock free, a list that is not empty does not look empty. */
  lemma FullLooksFull(q: Shared, g: Log, ops: Ops, consumer: Tid)
    requires QueueInv(q, g, ops, consumer) && q.lock == Free
    ensures q.rear != 0 <==> g.chain != []
  {
  }

  /** An idle consumer whose list is not empty can start. */
  lemma IdleConsumerStarts(s: State, seed: Str)
    requires Inv(s, seed)
    ensures s.send == NoOp && s.sendQ.lock == Free && s.sendLog.chain != [] ==> SendStep(s, s.(send := GetTested))
    ensures s.recv == Getting(NoOp) && s.recvQ.lock == Free && s.recvLog.chain != [] ==>
              RecvStep(s, s.(recv := Getting(GetTested)))
  {
    hide QueueInv, TableOf;
    if s.sendQ.lock == Free {
      FullLooksFull(s.sendQ, s.sendLog, SendOps(s), Send);
    }
    if s.recvQ.lock == Free {
      FullLooksFull(s.recvQ, s.recvLog, RecvOps(s), Recv);
    }
  }

  /** In every state of a run: no thread inside enqueue or dequeue is stopped by anything but a lock that
      another thread holds, which can step in its turn; an idle consumer with something to take can
      start; an element in hand can be recorded; and any page may come in. */
  lemma NobodyStuck(run: seq<State>, seed: Str, i: nat, t: Tid, x: Item)
    requires IsRun(run, seed) && i < |run|
    ensures var s := run[i];
            && (Of(SendOps(s), t) != NoOp && MayStep(s.sendQ, t) ==> exists s' :: ThreadStep(t, s, s') && s' != s)
            && (Of(RecvOps(s), t) != NoOp && MayStep(s.recvQ, t) ==> exists s' :: ThreadStep(t, s, s') && s' != s)
    ensures var s := run[i];
            && (s.sendQ.lock == Held(t) ==> Of(SendOps(s), t) != NoOp)
            && (s.recvQ.lock == Held(t) ==> Of(RecvOps(s), t) != NoOp)
    ensures var s := run[i];
            && (s.send == NoOp && s.sendQ.lock == Free && s.sendLog.chain != [] ==>
                  exists s' :: SendStep(s, s') && s'.send == GetTested)
            && (s.recv == Getting(NoOp) && s.recvQ.lock == Free && s.recvLog.chain != [] ==>
                  exists s' :: RecvStep(s, s') && s'.recv == Getting(GetTested))
            && (s.recv.Persisting? ==> exists s' :: RecvStep(s, s') && s'.seen == s.seen + [s.recv.x])
            && (s.loop == Fetching(NoOp) ==> exists s' :: LoopStep(s, s') && s'.loop == Fetching(PutWants(x)))
  {
    var s := run[i];
    RunKeeps(run, seed, i);
    RunningThreadSteps(s, seed, t);
    IdleConsumerStarts(s, seed);
    HolderIsInside(s, seed, t);
    if s.recv.Persisting? {
      PersistStep(s);
    }
    if s.loop == Fetching(NoOp) {
      assert LoopStep(s, s.(loop := Fetching(PutWants(x))));
    }
    hide Inv, QueueInv, LoopStep, RecvStep, SendStep, Init, Next;
  }

  lemma HolderIsInside(s: State, seed: Str, t: Tid)
    requires Inv(s, seed)
    ensures s.sendQ.lock == Held(t) ==> Of(SendOps(s), t) != NoOp
    ensures s.recvQ.lock == Held(t) ==> Of(RecvOps(s), t) != NoOp
  {
    ThreadFacts(s.sendQ, s.sendLog, SendOps(s), Send, t);
    ThreadFacts(s.recvQ, s.recvLog, RecvOps(s), Recv, t);
  }

  /** The state after url_persistence. */
  ghost function Recorded(s: State): State
    requires s.recv.Persisting?
  {
    var x := s.recv.x;
    var (t, ri) := Persisted(s.table, x.url, x.id);
    s.(table := t, seen := s.seen + [x],
       recv := if ri > 0 then Putting(PutWants(Item(ri, x.url))) else Getting(NoOp))
  }

  lemma PersistStep(s: State)
    requires s.recv.Persisting?
    ensures RecvStep(s, Recorded(s)) && Recorded(s).seen == s.seen + [s.recv.x]
  {
  }
}
