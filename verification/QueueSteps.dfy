/** bcrawler.h: enqueue and dequeue as several threads run them, one access to shared memory at a time.
    The emptiness test of dequeue is outside the lock. Filling a new node before it is linked touches
    no shared memory and belongs to the store that links it. */
module QueueSteps {
  import opened Pointers
  import opened UrlQueue

  datatype Tid = Loop | Recv | Send

  datatype Lock = Free | Held(t: Tid)

  datatype Shared = Shared(cells: seq<Cell>, rear: nat, lock: Lock)

  /** Where a thread is in enqueue or dequeue. */
  datatype Op =
    | NoOp
    | PutWants(x: Item)              // before P(mutex)
    | PutLocked(x: Item)
    | PutAt(r: nat, x: Item)                   // rear is read
    | PutLinked(n: nat)                        // rear->next is written
    | PutMoved                                 // rear is written
    | GetTested                                // front != rear was seen, before P(mutex)
    | GetLocked
    | GetFirst(first: Ptr)                     // p = front->next is read
    | GetTook(p: nat, x: Item)                 // p->pointer is read
    | GetNext(p: nat, x: Item, next: Ptr)      // p->next is read
    | GetUnlinked(p: nat, x: Item)             // front->next is written
    | GetCompared(p: nat, x: Item, last: bool) // rear is read
    | GetDone(x: Item)                         // rear is right again
    | Crashed                                  // p was null

  datatype Ops = Ops(loop: Op, recv: Op, send: Op)

  function Of(ops: Ops, t: Tid): Op {
    match t
    case Loop => ops.loop
    case Recv => ops.recv
    case Send => ops.send
  }

  function With(ops: Ops, t: Tid, op: Op): Ops {
    match t
    case Loop => ops.(loop := op)
    case Recv => ops.(recv := op)
    case Send => ops.(send := op)
  }

  /** Auxiliary: the cells in the list, and everything ever linked in and taken out. */
  datatype Log = Log(chain: seq<nat>, put: seq<Item>, got: seq<Item>)

  predicate InCritical(op: Op) {
    !(op.NoOp? || op.PutWants? || op.GetTested? || op.Crashed?)
  }

  predicate IsGet(op: Op) {
    || op.GetTested? || op.GetLocked? || op.GetFirst? || op.GetTook? || op.GetNext? || op.GetUnlinked?
    || op.GetCompared? || op.GetDone? || op.Crashed?
  }

  // ---- one step of a running operation ----

  predicate CanStep(q: Shared, op: Op) {
    match op
    case NoOp => false
    case Crashed => false
    case PutWants(_) => q.lock == Free
    case GetTested => q.lock == Free
    case _ => true
  }

  function StepShared(t: Tid, q: Shared, op: Op): Shared {
    match op
    case PutWants(_) => q.(lock := Held(t))
    case PutAt(r, x) => if r < |q.cells| then q.(cells := Linked(q.cells, r, x)) else q
    case PutLinked(n) => q.(rear := n)
    case PutMoved => q.(lock := Free)
    case GetTested => q.(lock := Held(t))
    case GetNext(_, _, next) => if q.cells != [] then q.(cells := q.cells[0 := q.cells[0].(next := next)]) else q
    case GetCompared(_, _, last) => if last then q.(rear := 0) else q
    case GetDone(_) => q.(lock := Free)
    case _ => q
  }

  function StepOp(q: Shared, op: Op): Op {
    match op
    case PutWants(x) => PutLocked(x)
    case PutLocked(x) => PutAt(q.rear, x)
    case PutAt(_, _) => PutLinked(|q.cells|)
    case PutLinked(_) => PutMoved
    case GetTested => GetLocked
    case GetLocked => if q.cells != [] then GetFirst(q.cells[0].next) else Crashed
    case GetFirst(p) => if p.At? && p.id < |q.cells| then GetTook(p.id, q.cells[p.id].item) else Crashed
    case GetTook(p, x) => if p < |q.cells| then GetNext(p, x, q.cells[p].next) else Crashed
    case GetNext(p, x, _) => GetUnlinked(p, x)
    case GetUnlinked(p, x) => GetCompared(p, x, p == q.rear)
    case GetCompared(_, x, _) => GetDone(x)
    case _ => NoOp
  }

  ghost function StepLog(q: Shared, op: Op, g: Log): Log {
    match op
    case PutAt(_, x) => Log(g.chain + [|q.cells|], g.put + [x], g.got)
    case GetNext(_, x, _) => if g.chain == [] then g else Log(g.chain[1..], g.put, g.got + [x])
    case _ => g
  }

  // ---- the invariant ----

  function HolderOp(q: Shared, ops: Ops): Op {
    if q.lock.Held? then Of(ops, q.lock.t) else NoOp
  }

  ghost predicate RearOk(q: Shared, chain: seq<nat>, op: Op) {
    match op
    case PutLinked(n) => chain != [] && n == LastOf(chain) && q.rear == LastOf(chain[..|chain| - 1])
    case GetUnlinked(p, _) => p !in chain && q.rear == if chain == [] then p else LastOf(chain)
    case GetCompared(p, _, last) => (last <==> chain == []) && q.rear == if last then p else LastOf(chain)
    case _ => q.rear == LastOf(chain)
  }

  ghost predicate OpOk(q: Shared, chain: seq<nat>, op: Op) {
    match op
    case PutAt(r, _) => r == q.rear
    case GetTested => chain != []
    case GetLocked => chain != []
    case GetFirst(p) => chain != [] && p == At(chain[0])
    case GetTook(p, x) => chain != [] && p == chain[0] && p < |q.cells| && x == q.cells[p].item
    case GetNext(p, x, next) =>
      chain != [] && p == chain[0] && p < |q.cells| && x == q.cells[p].item && next == q.cells[p].next
    case Crashed => false
    case _ => true
  }

  ghost predicate QueueInv(q: Shared, g: Log, ops: Ops, consumer: Tid) {
    && Links(q.cells, g.chain)
    && g.put == g.got + Items(q.cells, g.chain)
    && RearOk(q, g.chain, HolderOp(q, ops))
    && (forall t {:trigger Of(ops, t)} ::
          && (InCritical(Of(ops, t)) <==> q.lock == Held(t))
          && OpOk(q, g.chain, Of(ops, t))
          && (IsGet(Of(ops, t)) ==> t == consumer))
  }

  lemma OfWith(ops: Ops, t: Tid, op: Op, u: Tid)
    ensures Of(With(ops, t, op), u) == if u == t then op else Of(ops, u)
  {
  }

  lemma ThreadFacts(q: Shared, g: Log, ops: Ops, consumer: Tid, t: Tid)
    requires QueueInv(q, g, ops, consumer)
    ensures InCritical(Of(ops, t)) <==> q.lock == Held(t)
    ensures OpOk(q, g.chain, Of(ops, t)) && (IsGet(Of(ops, t)) ==> t == consumer)
  {
  }

  lemma PutKept(q: Shared, g: Log, x: Item)
    requires Links(q.cells, g.chain) && g.put == g.got + Items(q.cells, g.chain) && q.rear == LastOf(g.chain)
    ensures q.rear < |q.cells| && Links(Linked(q.cells, q.rear, x), g.chain + [|q.cells|])
    ensures g.put + [x] == g.got + Items(Linked(q.cells, q.rear, x), g.chain + [|q.cells|])
  {
    RearAllocated(q, g.chain);
    LinkAppends(q.cells, g.chain, x);
    hide Links, Items, Linked;
  }

  lemma GetKept(q: Shared, g: Log)
    requires Links(q.cells, g.chain) && g.put == g.got + Items(q.cells, g.chain) && g.chain != []
    ensures var p := g.chain[0];
            && p < |q.cells| && Links(Unlinked(q.cells, p), g.chain[1..])
            && g.put == g.got + [q.cells[p].item] + Items(Unlinked(q.cells, p), g.chain[1..])
  {
    UnlinkRemovesFirst(q.cells, g.chain);
    FirstItem(q.cells, g.chain);
    hide Links, Items, Unlinked;
  }

  /** What a step does to the list. */
  lemma ListKept(t: Tid, q: Shared, g: Log, ops: Ops, consumer: Tid)
    requires QueueInv(q, g, ops, consumer) && CanStep(q, Of(ops, t))
    ensures var q', g' := StepShared(t, q, Of(ops, t)), StepLog(q, Of(ops, t), g);
            Links(q'.cells, g'.chain) && g'.put == g'.got + Items(q'.cells, g'.chain)
  {
    hide Links, Items, Linked;
    var op := Of(ops, t);
    ThreadFacts(q, g, ops, consumer, t);
    if op.PutAt? {
      PutKept(q, g, op.x);
    } else if op.GetNext? {
      GetKept(q, g);
    }
  }

  lemma FirstItem(cells: seq<Cell>, c: seq<nat>)
    requires Links(cells, c) && c != []
    ensures Items(cells, c) == [cells[c[0]].item] + Items(cells, c)[1..]
  {
  }

  lemma RearAllocated(q: Shared, chain: seq<nat>)
    requires Links(q.cells, chain) && q.rear == LastOf(chain)
    ensures q.rear < |q.cells|
  {
  }

  /** What a step of the lock holder, or of the thread that takes the lock, does to the rear pointer. */
  ghost predicate RearMoves(t: Tid, q: Shared, g: Log, op: Op) {
    var q' := StepShared(t, q, op);
    RearOk(q', StepLog(q, op, g).chain, if q'.lock.Held? then StepOp(q, op) else NoOp)
  }

  lemma RearMovesPut(t: Tid, q: Shared, g: Log, op: Op)
    requires Links(q.cells, g.chain) && RearOk(q, g.chain, if q.lock == Free then NoOp else op) && OpOk(q, g.chain, op)
    requires (q.lock == Free <==> op.PutWants? || op.GetTested?) && !IsGet(op)
    ensures RearMoves(t, q, g, op)
  {
    hide Links, Linked, LastOf;
    LastOfMore(g.chain, |q.cells|);
    if op.PutAt? {
      RearAllocated(q, g.chain);
    }
  }

  lemma RearMovesGet(t: Tid, q: Shared, g: Log, op: Op)
    requires Links(q.cells, g.chain) && RearOk(q, g.chain, if q.lock == Free then NoOp else op) && OpOk(q, g.chain, op)
    requires (q.lock == Free <==> op.PutWants? || op.GetTested?) && IsGet(op)
    ensures RearMoves(t, q, g, op)
  {
    hide Links, LastOf;
    if op.GetNext? {
      FirstIsNotLater(q.cells, g.chain);
    } else if op.GetUnlinked? {
      LastIsIn(g.chain);
    } else if op.GetCompared? {
      LastOfMore([], 0);
    }
  }

  lemma LastIsIn(c: seq<nat>)
    ensures c != [] ==> LastOf(c) in c
  {
  }

  lemma LastOfMore(c: seq<nat>, n: nat)
    ensures c + [n] != [] && LastOf(c + [n]) == n && (c + [n])[..|c + [n]| - 1] == c
    ensures LastOf([]) == 0
  {
  }

  lemma RearKept(t: Tid, q: Shared, g: Log, ops: Ops, consumer: Tid)
    requires QueueInv(q, g, ops, consumer) && CanStep(q, Of(ops, t))
    ensures RearMoves(t, q, g, Of(ops, t))
  {
    ThreadFacts(q, g, ops, consumer, t);
    if IsGet(Of(ops, t)) {
      RearMovesGet(t, q, g, Of(ops, t));
    } else {
      RearMovesPut(t, q, g, Of(ops, t));
    }
    hide RearMoves, Links, RearOk, StepShared, StepLog, StepOp, OpOk, InCritical, IsGet;
  }

  lemma FirstIsNotLater(cells: seq<Cell>, c: seq<nat>)
    requires Links(cells, c)
    ensures c != [] ==> c[0] !in c[1..] && LastOf(c) == if c[1..] == [] then c[0] else LastOf(c[1..])
    ensures 0 !in c
  {
  }

  /** The other threads do not notice. */
  lemma OthersKept(t: Tid, q: Shared, g: Log, ops: Ops, consumer: Tid, u: Tid)
    requires QueueInv(q, g, ops, consumer) && CanStep(q, Of(ops, t)) && u != t
    ensures var q' := StepShared(t, q, Of(ops, t));
            && (InCritical(Of(ops, u)) <==> q'.lock == Held(u))
            && OpOk(q', StepLog(q, Of(ops, t), g).chain, Of(ops, u))
  {
  }

  /** The thread itself comes to its next statement in order. */
  lemma StepperKept(t: Tid, q: Shared, g: Log, ops: Ops, consumer: Tid)
    requires QueueInv(q, g, ops, consumer) && CanStep(q, Of(ops, t))
    ensures var op := Of(ops, t);
            var q' := StepShared(t, q, op);
            && (InCritical(StepOp(q, op)) <==> q'.lock == Held(t))
            && OpOk(q', StepLog(q, op, g).chain, StepOp(q, op))
            && (IsGet(StepOp(q, op)) ==> t == consumer)
  {
  }

  /** Every step of every thread keeps the queue in order: nothing is lost, doubled or overtaken, and
      the null dereference is never reached. */
  lemma StepKeeps(t: Tid, q: Shared, g: Log, ops: Ops, consumer: Tid)
    requires QueueInv(q, g, ops, consumer) && CanStep(q, Of(ops, t))
    ensures QueueInv(StepShared(t, q, Of(ops, t)), StepLog(q, Of(ops, t), g), With(ops, t, StepOp(q, Of(ops, t))),
                     consumer)
  {
    var op := Of(ops, t);
    var q', g', ops' := StepShared(t, q, op), StepLog(q, op, g), With(ops, t, StepOp(q, op));
    ListKept(t, q, g, ops, consumer);
    RearKept(t, q, g, ops, consumer);
    StepperKept(t, q, g, ops, consumer);
    forall u {:trigger Of(ops', u)}
      ensures InCritical(Of(ops', u)) <==> q'.lock == Held(u)
      ensures OpOk(q', g'.chain, Of(ops', u))
      ensures IsGet(Of(ops', u)) ==> u == consumer
    {
      OfWith(ops, t, StepOp(q, op), u);
      if u != t {
        OthersKept(t, q, g, ops, consumer, u);
        ThreadFacts(q, g, ops, consumer, u);
      }
    }
    hide Links, With, Of, InCritical, OpOk, IsGet, RearOk, StepShared, StepLog, StepOp;
  }

  // ---- starting an operation ----

  /** A thread that is not in enqueue or dequeue enters it; nothing shared changes. */
  lemma StartKeeps(t: Tid, q: Shared, g: Log, ops: Ops, consumer: Tid, op: Op)
    requires QueueInv(q, g, ops, consumer) && Of(ops, t) == NoOp
    requires !InCritical(op) && OpOk(q, g.chain, op) && (IsGet(op) ==> t == consumer)
    ensures QueueInv(q, g, With(ops, t, op), consumer)
  {
    var ops' := With(ops, t, op);
    ThreadFacts(q, g, ops, consumer, t);
    forall u {:trigger Of(ops', u)}
      ensures InCritical(Of(ops', u)) <==> q.lock == Held(u)
      ensures OpOk(q, g.chain, Of(ops', u))
      ensures IsGet(Of(ops', u)) ==> u == consumer
    {
      OfWith(ops, t, op, u);
      ThreadFacts(q, g, ops, consumer, u);
    }
    assert HolderOp(q, ops') == HolderOp(q, ops);
    hide Links, With, Of, InCritical, OpOk, IsGet, RearOk;
  }

  /** The unlocked test: a queue that does not look empty is not empty, and stays so until the lock
      is taken, because nobody else takes elements out. */
  lemma TestSound(q: Shared, g: Log, ops: Ops, consumer: Tid)
    requires QueueInv(q, g, ops, consumer) && Of(ops, consumer) == NoOp && q.rear != 0
    ensures g.chain != []
  {
  }

  // ---- a thread that is not interrupted ----

  /** `n` steps of one thread while the others stand still. */
  ghost function Alone(t: Tid, q: Shared, op: Op, n: nat): (Shared, Op)
    decreases n
  {
    if n == 0 then (q, op) else Alone(t, StepShared(t, q, op), StepOp(q, op), n - 1)
  }

  /** Nothing is going on in the queue, and `chain` is its list. */
  ghost predicate AtRest(q: Shared, chain: seq<nat>) {
    Links(q.cells, chain) && q.rear == LastOf(chain) && q.lock == Free
  }

  lemma AloneStep(t: Tid, q: Shared, op: Op, n: nat)
    requires n > 0
    ensures Alone(t, q, op, n) == Alone(t, StepShared(t, q, op), StepOp(q, op), n - 1)
    ensures n == 1 ==> Alone(t, q, op, n) == (StepShared(t, q, op), StepOp(q, op))
  {
  }

  /** enqueue appends the element. */
  lemma EnqueueAlone(t: Tid, q: Shared, chain: seq<nat>, x: Item) returns (q': Shared)
    requires AtRest(q, chain)
    ensures Alone(t, q, PutWants(x), 5) == (q', NoOp)
    ensures AtRest(q', chain + [|q.cells|]) && Items(q'.cells, chain + [|q.cells|]) == Items(q.cells, chain) + [x]
  {
    RearAllocated(q, chain);
    LinkAppends(q.cells, chain, x);
    hide Links, Items, Linked, Alone;
    var cells, n := Linked(q.cells, q.rear, x), |q.cells|;
    q' := Shared(cells, n, Free);
    AloneStep(t, q, PutWants(x), 5);
    AloneStep(t, q.(lock := Held(t)), PutLocked(x), 4);
    AloneStep(t, q.(lock := Held(t)), PutAt(q.rear, x), 3);
    AloneStep(t, Shared(cells, q.rear, Held(t)), PutLinked(n), 2);
    AloneStep(t, Shared(cells, n, Held(t)), PutMoved, 1);
  }

  lemma DequeueRun(t: Tid, q: Shared, p: nat, x: Item)
    requires q.lock == Free && 0 < p < |q.cells| && q.cells[0].next == At(p) && q.cells[p].item == x
    ensures Alone(t, q, GetTested, 7) ==
            (Shared(Unlinked(q.cells, p), if p == q.rear then 0 else q.rear, Held(t)), GetDone(x))
  {
    hide Alone;
    var next, last := q.cells[p].next, p == q.rear;
    var h := q.(lock := Held(t));
    var u := h.(cells := Unlinked(q.cells, p));
    AloneStep(t, q, GetTested, 7);
    AloneStep(t, h, GetLocked, 6);
    AloneStep(t, h, GetFirst(At(p)), 5);
    AloneStep(t, h, GetTook(p, x), 4);
    AloneStep(t, h, GetNext(p, x, next), 3);
    AloneStep(t, u, GetUnlinked(p, x), 2);
    AloneStep(t, u, GetCompared(p, x, last), 1);
  }

  /** dequeue takes the first element; its test fails exactly on an empty queue. */
  lemma DequeueAlone(t: Tid, q: Shared, chain: seq<nat>) returns (q': Shared)
    requires AtRest(q, chain)
    ensures q.rear == 0 <==> Items(q.cells, chain) == []
    ensures q.rear != 0 ==>
              && Alone(t, q, GetTested, 7) == (q'.(lock := Held(t)), GetDone(Items(q.cells, chain)[0]))
              && StepShared(t, q'.(lock := Held(t)), GetDone(Items(q.cells, chain)[0])) == q'
              && AtRest(q', chain[1..])
              && Items(q.cells, chain) == [Items(q.cells, chain)[0]] + Items(q'.cells, chain[1..])
  {
    hide Alone;
    FirstIsNotLater(q.cells, chain);
    q' := q;
    if chain != [] {
      UnlinkRemovesFirst(q.cells, chain);
      FirstItem(q.cells, chain);
      var p := chain[0];
      assert LinkAt(q.cells, chain, 0);
      DequeueRun(t, q, p, q.cells[p].item);
      q' := Shared(Unlinked(q.cells, p), if p == q.rear then 0 else q.rear, Free);
      assert p == q.rear <==> chain[1..] == [];
      hide Links, Items, Unlinked;
    }
  }
}
