/** The work-stealing thread pool: a fixed list of workers, each owning one
    task queue, with routing of submissions, the steal search, the round-robin
    steal nudge, and one iteration of a worker's loop.

    Threads, mutexes and condition variables are not modelled. Each method is
    one atomic step. Waking a worker is recorded in the ghost log `wakes`.
    Running a task is not modelled beyond handing its id back to the caller of
    `Worker.Step`. */
module WorkStealingPool {
  import opened TaskQueue
  import opened Schedule

  class Worker {
    /** The worker's id, unique within its pool. */
    const id: int
    /** The OS thread this worker runs on. */
    const threadId: ThreadId
    /** The worker's own task queue. */
    const que: Queue

    constructor (id: int, threadId: ThreadId)
      ensures this.id == id && this.threadId == threadId
      ensures fresh(que) && que.items == []
    {
      this.id := id;
      this.threadId := threadId;
      que := new Queue();
    }

    /** Notifies this worker's wake signal. */
    method Wake(pool: Pool)
      modifies pool`wakes
      ensures pool.wakes == old(pool.wakes) + [id]
    {
      pool.wakes := pool.wakes + [id];
    }

    /** Queues `work` on this worker (position `k` of `pool`), wakes it, then
        asks the pool to nudge the next worker in rotation. */
    method Push(pool: Pool, work: Task, ghost k: nat)
      requires pool.Valid() && k < |pool.workers| && pool.workers[k] == this
      modifies que, pool`cursor, pool`wakes
      ensures pool.Valid()
      ensures pool.Queues() == old(pool.Queues())[k := old(pool.Queues())[k] + [work]]
      ensures pool.cursor == Advance(old(pool.cursor), |pool.workers|)
      ensures pool.wakes == old(pool.wakes) + [WorkerId(k), WorkerId(pool.cursor)]
    {
      que.Push(work);
      Wake(pool);
      pool.RequestSteal();
    }

    /** Thief-side access to this worker's queue. */
    method Steal(work: Task) returns (ok: bool, work': Task)
      modifies que
      ensures ok <==> old(que.items) != []
      ensures ok ==> work' == old(que.items)[|old(que.items)| - 1] && que.items == old(que.items)[..|old(que.items)| - 1]
      ensures !ok ==> work' == work && que.items == old(que.items)
    {
      ok, work' := que.Steal(work);
    }

    /** One iteration of the worker loop of the worker at position `k`: pop the
        own queue; failing that, steal from a sibling; run what was found, or
        park when nothing was found. */
    method Step(pool: Pool, ghost k: nat) returns (ran: bool, work: Task)
      requires pool.Valid() && k < |pool.workers| && pool.workers[k] == this
      modifies pool.QueueObjects()
      ensures pool.Valid()
      ensures ran == NextWork(old(pool.Queues()), k).Run?
      ensures ran ==> work == NextWork(old(pool.Queues()), k).task &&
                      pool.Queues() == NextWork(old(pool.Queues()), k).after
      ensures !ran ==> pool.Queues() == old(pool.Queues())
      ensures Total(pool.Queues()) + (if ran then multiset{work} else multiset{}) == Total(old(pool.Queues()))
    {
      ghost var qs := pool.Queues();
      assert qs[k] == que.items;
      work := NoWork;
      ran, work := que.Pop(work);
      if ran {
        assert NextWork(qs, k) == Run(qs[k][0], TakeFront(qs, k));
        forall j | 0 <= j < |qs| ensures pool.Queues()[j] == TakeFront(qs, k)[j] {
          assert j != k ==> pool.workers[j].que != que;
        }
        assert pool.Queues() == TakeFront(qs, k);
      } else {
        assert pool.Queues() == qs;
        ran, work := pool.StealWork(work, id);
        assert id == WorkerId(k);
        if ran {
          var v := FirstVictim(qs, id).value;
          assert NextWork(qs, k) == Run(qs[v][|qs[v]| - 1], TakeBack(qs, v));
        }
      }
      // When `ran`, the worker now runs `work`; otherwise it parks until woken.
    }
  }

  class Pool {
    /** The workers, in creation order. */
    const workers: seq<Worker>
    /** The steal-nudge cursor: the position of the worker nudged last, or
        the first worker before any nudge. */
    var cursor: nat
    /** The ids of the workers woken, in order. */
    ghost var wakes: seq<int>

    ghost predicate Valid()
      reads this
    {
      1 <= |workers| && cursor < |workers| &&
      (forall i :: 0 <= i < |workers| ==> workers[i].id == WorkerId(i)) &&
      (forall i, j :: 0 <= i < j < |workers| ==>
        workers[i].que != workers[j].que && workers[i].threadId != workers[j].threadId)
    }

    ghost function QueueObjects(): set<Queue>
    {
      set i | 0 <= i < |workers| :: workers[i].que
    }

    /** The contents of every worker's queue, in worker order. */
    ghost function Queues(): (qs: seq<seq<Task>>)
      reads QueueObjects()
      ensures |qs| == |workers|
      ensures forall i :: 0 <= i < |workers| ==> qs[i] == workers[i].que.items
    {
      seq(|workers|, i requires 0 <= i < |workers| reads QueueObjects() => workers[i].que.items)
    }

    function ThreadIds(): (tids: seq<ThreadId>)
      ensures |tids| == |workers|
      ensures forall i :: 0 <= i < |workers| ==> tids[i] == workers[i].threadId
    {
      seq(|workers|, i requires 0 <= i < |workers| => workers[i].threadId)
    }

    /** Builds `count` workers with ids 1000, 1001, ..., running on the threads
        `threadIds`, and points the cursor at the first worker. */
    constructor (count: nat, threadIds: seq<ThreadId>)
      requires count >= 1 && |threadIds| == count
      requires forall i, j :: 0 <= i < j < count ==> threadIds[i] != threadIds[j]
      ensures Valid()
      ensures fresh(QueueObjects())
      ensures ThreadIds() == threadIds
      ensures forall i :: 0 <= i < count ==> Queues()[i] == []
      ensures Total(Queues()) == multiset{}
      ensures cursor == 0
      ensures wakes == []
    {
      var ws: seq<Worker> := [];
      for i := 0 to count
        invariant |ws| == i
        invariant forall j :: 0 <= j < i ==>
          ws[j].id == WorkerId(j) && ws[j].threadId == threadIds[j] && fresh(ws[j].que) && ws[j].que.items == []
        invariant forall j, l :: 0 <= j < l < i ==> ws[j].que != ws[l].que
      {
        var w := new Worker(1000 + i, threadIds[i]);
        ws := ws + [w];
      }
      workers := ws;
      cursor := 0;
      wakes := [];
      new;
      assert Total(Queues()) == multiset{} by {
        EmptyQueuesHoldNothing(Queues());
      }
    }

    /** Advances the cursor to the next worker, wrapping from the last worker to
        the first, and wakes the worker it now points at. */
    method RequestSteal()
      requires Valid()
      modifies this`cursor, this`wakes
      ensures Valid()
      ensures cursor == Advance(old(cursor), |workers|)
      ensures wakes == old(wakes) + [WorkerId(cursor)]
    {
      cursor := cursor + 1;
      if cursor == |workers| {
        cursor := 0;
      }
      workers[cursor].Wake(this);
    }

    /** Queues `work`, submitted from thread `caller`, on the worker running on
        `caller`, or on the first worker when `caller` is not a worker thread. */
    method PushWork(caller: ThreadId, work: Task)
      requires Valid()
      modifies QueueObjects(), this`cursor, this`wakes
      ensures Valid()
      ensures var k := Route(ThreadIds(), caller);
        Queues() == old(Queues())[k := old(Queues())[k] + [work]] &&
        wakes == old(wakes) + [WorkerId(k), WorkerId(cursor)]
      ensures cursor == Advance(old(cursor), |workers|)
      ensures Total(Queues()) == Total(old(Queues())) + multiset{work}
      ensures |Total(Queues())| == |Total(old(Queues()))| + 1
    {
      ghost var qs := Queues();
      for i := 0 to |workers|
        invariant Queues() == qs && cursor == old(cursor) && wakes == old(wakes)
        invariant forall j :: 0 <= j < i ==> workers[j].threadId != caller
      {
        if caller == workers[i].threadId {
          workers[i].Push(this, work, i);
          RouteIsOwnWorker(ThreadIds(), caller, i);
          AppendAddsOne(qs, i, work);
          return;
        }
      }
      assert caller !in ThreadIds();
      workers[0].Push(this, work, 0);
      AppendAddsOne(qs, 0, work);
    }

    /** Steals on behalf of the worker with id `excludeId`: scans the workers in
        order, skipping that one, and takes the back task of the first queue
        that has one. */
    method StealWork(work: Task, excludeId: int) returns (ok: bool, work': Task)
      requires Valid()
      modifies QueueObjects()
      ensures Valid()
      ensures !ok <==> forall i :: 0 <= i < |workers| && WorkerId(i) != excludeId ==> old(Queues())[i] == []
      ensures match FirstVictim(old(Queues()), excludeId)
        case None => !ok && work' == work && Queues() == old(Queues())
        case Some(v) =>
          ok && work' == old(Queues())[v][|old(Queues())[v]| - 1] &&
          Queues() == TakeBack(old(Queues()), v)
    {
      ghost var qs := Queues();
      work' := work;
      for i := 0 to |workers|
        invariant Queues() == qs && work' == work
        invariant forall j :: 0 <= j < i && WorkerId(j) != excludeId ==> qs[j] == []
      {
        if workers[i].id != excludeId {
          ok, work' := workers[i].Steal(work');
          if ok {
            assert FirstVictim(qs, excludeId) == Some(i);
            return;
          }
        }
      }
      ok := false;
    }
  }

  lemma {:induction false} EmptyQueuesHoldNothing(qs: seq<seq<Task>>)
    requires forall i :: 0 <= i < |qs| ==> qs[i] == []
    ensures Total(qs) == multiset{}
  {
    if qs != [] {
      EmptyQueuesHoldNothing(qs[..|qs| - 1]);
    }
  }
}
