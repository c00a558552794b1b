# wstpool: a sequential model of the work-stealing thread pool

This project models the scheduling core of `wstpool`, a fixed-size
work-stealing thread pool. Each worker owns a double-ended task queue. The
owner pops the oldest task from the front. Idle siblings steal the newest
task from the back. A submission goes to the queue of the worker whose thread
submits it, or to the first worker when an outside thread submits it. Every
push wakes the destination worker and nudges one more worker, chosen by a
round-robin cursor.

The model is sequential. Every queue operation and every pool operation is
one atomic step. Tasks are opaque integer ids. The pool is a list of workers,
each holding one queue object. Its abstract state is `Pool.Queues()`, the
sequence of queue contents in worker order.

- `queue.dfy` (module `TaskQueue`): the `Queue` class over a `seq<Task>`,
  with `Push`, `Pop` and `Steal` stated exactly. It also holds two client
  methods: one proves owner-side FIFO order, the other thief-side LIFO order.
- `schedule.dfy` (module `Schedule`): the pool's deterministic rules on
  values. These are worker ids, the cursor advance and its rotation,
  routing, choice of a steal victim, and the outcome of one iteration of a
  worker loop (`NextWork`). The module also keeps the queued tasks as a
  multiset (`Total`) and proves conservation: a task handed out leaves
  exactly one queue, so no task runs twice.
- `pool.dfy` (module `WorkStealingPool`): the `Worker` and `Pool` classes.
  Their methods mirror the source's `Worker::push/wake/steal`, one iteration
  of `Worker::threadFunc`, `ThreadPool::pushWork/stealWork/requestSteal` and
  the constructor. Each method is proved against the rules in `Schedule`.
  Waking a worker appends its id to the ghost log `Pool.wakes`.
- `primes.dfy` (module `Primes`): the demo program's trial-division
  `isPrime`. It keeps the quirk that every `n <= 2`, including 0, 1 and
  negatives, is reported prime with itself.

Two details follow the code's list positions. The rotation cursor starts at
the first worker in the list (wstpool.h:28). The steal search scans the list
in order (wstpool.h:199). Worker ids are `1000 + i`, so list order and id
order agree. The model adds no behaviour the code lacks, such as rejecting a
pool of zero workers, catching task failures, or a shutdown policy.

## Model

| member | source | states |
|---|---|---|
| `TaskQueue.Queue.constructor` | wstpool.h:99 | a new queue is empty |
| `TaskQueue.Queue.Push` | wstpool.h:71-75 | the queue becomes its old contents followed by the pushed task |
| `TaskQueue.Queue.Pop` | wstpool.h:76-86 | on an empty queue it returns false and leaves both the queue and the caller's variable unchanged; otherwise it returns true and the old front, and leaves the old contents minus the front |
| `TaskQueue.Queue.Steal` | wstpool.h:87-97 | on an empty queue it returns false and changes nothing; otherwise it returns true and the old back, and leaves the old contents minus the back |
| `TaskQueue.PushAllThenPopAll` | wstpool.h:71-86 | with no thieves, pushing a sequence and then popping until the queue reports empty yields the earlier contents followed by the pushed tasks in push order (FIFO), and empties the queue |
| `TaskQueue.PushAllThenStealAll` | wstpool.h:87-97 | pushing a sequence and then stealing until the queue reports empty yields the same tasks in reverse order (LIFO for thieves) |
| `Schedule.WorkerId` | wstpool.h:24-27 | the worker at position i gets id 1000 + i, at least 1000 |
| `Schedule.WorkerIdInjective` | wstpool.h:24-27 | workers at different positions get different ids, so a steal that excludes one id skips exactly one worker |
| `Schedule.Advance` | wstpool.h:213-217 | one cursor advance stays among the worker positions [0, n) |
| `Schedule.AdvanceIsSuccessorMod` | wstpool.h:213-217 | one cursor advance from c moves the cursor to (c + 1) mod n |
| `Schedule.AdvanceBy` | wstpool.h:211-219 | any number of advances keeps the cursor in [0, n) |
| `Schedule.AdvanceByIsRotation` | wstpool.h:211-219 | k advances from c put the cursor at (c + k) mod n |
| `Schedule.EveryWorkerNudged` | wstpool.h:211-219 | from any cursor, every worker is nudged within n consecutive requests (round-robin fairness) |
| `Schedule.FindThread` | wstpool.h:187-194 | the scan finds the first position whose thread is the caller, or reports that no worker runs on the caller's thread |
| `Schedule.Route` | wstpool.h:184-196 | a submission goes to the first worker running on the caller's thread, or to worker 0 when the caller is not a worker thread |
| `Schedule.RouteIsOwnWorker` | wstpool.h:186-193 | when worker threads are pairwise distinct, a submission from worker j's thread goes to worker j |
| `Schedule.FirstVictimFrom` | wstpool.h:199-209 | the scan returns the first position from i on that is not the excluded id and has a non-empty queue, or reports that none exists |
| `Schedule.FirstVictim` | wstpool.h:197-210 | there is no victim exactly when every worker other than the excluded one has an empty queue; otherwise the victim is the first such non-empty queue in list order |
| `Schedule.TakeBack` | wstpool.h:94-95 | taking the back task of one queue leaves that queue as its old contents minus the back, and every other queue unchanged |
| `Schedule.TakeFront` | wstpool.h:83-84 | taking the front task of one queue leaves that queue as its old contents minus the front, and every other queue unchanged |
| `Schedule.NextWork` | wstpool.h:160-176 | one loop iteration parks exactly when every queue in the pool, the worker's own included, is empty; a task it hands out is removed from exactly one queue, so queued tasks plus the handed-out task equal the queued tasks before |
| `Schedule.OthersIdleMeansAllIdle` | wstpool.h:164-175 | a worker whose own pop fails and whose steal finds no victim sees every queue of the pool empty |
| `Schedule.TotalUpdate` | wstpool.h:71-97 | replacing one queue changes the pool's multiset of queued tasks by exactly that queue's difference |
| `Schedule.AppendAddsOne` | wstpool.h:71-75 | pushing one task onto any queue adds exactly that task to the pool's queued tasks, so their count grows by one |
| `Schedule.TakeFrontRemovesOne` | wstpool.h:76-86 | popping a front task removes exactly that task from the pool's queued tasks |
| `Schedule.TakeBackRemovesOne` | wstpool.h:87-97 | stealing a back task removes exactly that task from the pool's queued tasks |
| `Schedule.SubmitConserves` | wstpool.h:184-196 | queuing a new submission keeps "queued plus executed equals submitted" |
| `Schedule.StepConserves` | wstpool.h:154-178 | running the task one loop iteration hands out keeps "queued plus executed equals submitted" |
| `Schedule.NoTaskRunsTwice` | wstpool.h:154-178 | while "queued plus executed equals submitted" holds and no task id was submitted twice, no task has been executed twice |
| `WorkStealingPool.Worker.constructor` | wstpool.h:107-111 | a worker is built with the given id and thread and an empty, freshly allocated queue |
| `WorkStealingPool.Worker.Wake` | wstpool.h:122-125 | waking a worker appends its id to the wake log |
| `WorkStealingPool.Worker.Push` | wstpool.h:116-121 | the task is appended to this worker's queue only; the cursor advances by one; the wake log gains this worker, then the worker the cursor now points at |
| `WorkStealingPool.Worker.Steal` | wstpool.h:126-129 | a steal on this worker's queue behaves exactly as the queue's steal |
| `WorkStealingPool.Worker.Step` | wstpool.h:154-178 | one loop iteration runs the front of the own queue if there is one, else the back of the first other non-empty queue; otherwise it parks and changes nothing; queued tasks plus the task run are conserved |
| `WorkStealingPool.Pool.constructor` | wstpool.h:21-33 | the pool has count >= 1 workers with ids 1000 + i, on the given pairwise-distinct threads, with distinct empty queues; the cursor is at worker 0 and nothing has been woken |
| `WorkStealingPool.Pool.RequestSteal` | wstpool.h:211-219 | the cursor advances by one with wrap-around and stays in range; the worker it now points at is woken |
| `WorkStealingPool.Pool.PushWork` | wstpool.h:184-196 | the task is appended to exactly one queue, the routing target; total queued tasks grow by exactly that task; the wake log gains the target, then the rotated cursor's worker |
| `WorkStealingPool.Pool.StealWork` | wstpool.h:197-210 | it returns false exactly when every worker other than the excluded one has an empty queue, and then changes nothing; otherwise it returns the back task of the first such non-empty queue in list order, removes only that task, and leaves every other queue unchanged, the excluded one included |
| `Primes.SmallestDivisorFrom` | example/main.cpp:9-16 | the result is the smallest divisor of n in [i, n), or n when there is none |
| `Primes.IsPrime` | example/main.cpp:7-17 | returns (n, true) exactly when no number in [2, n) divides n; otherwise returns false with the smallest divisor of n in [2, n); every n <= 2 is reported (n, true) |
| `Primes.SmallestDivisorDecidesPrimality` | example/main.cpp:9-16 | n has no divisor in [2, n) exactly when its smallest divisor in [2, n) is n itself |

## Left out

- Threads and their lifecycle are not modelled: `start` (wstpool.h:112-115), `exit` and `join` (wstpool.h:138-143), the destructor (wstpool.h:34-40), and the `mExit` flag that ends the worker loop. `Worker.Step` is one iteration of the loop body. The loop condition and shutdown, including tasks abandoned at shutdown, are outside the model.
- Mutexes and condition variables are not modelled. Each queue operation is atomic. A wake is an entry in the ghost log `Pool.wakes`, and parking is the outcome "nothing ran". Spurious wakeups and the lost-wakeup window between a failed search and the wait are concurrency behaviour with no sequential contract.
- `async` (wstpool.h:42-64) is not modelled: the packaged task, `std::bind`, the future and the result channel. Tasks are integer ids. Running a task is `Worker.Step` handing its id back to the caller. `Schedule.Conserved` states the "queued plus executed equals submitted" books on values, and the lemmas `SubmitConserves`, `StepConserves` and `NoTaskRunsTwice` reason about them.
- The unsynchronised update of the rotation cursor by concurrent submitters is a data race. It cannot arise in a sequential model.
- `requestSteal` is declared to return `bool` but returns nothing (wstpool.h:211-219). `Pool.RequestSteal` returns no value.
- Zero workers would make `mWorkers.front()` and the cursor dereference undefined. The `Pool` constructor requires `count >= 1`.
- OS thread identities are not modelled. The thread ids of the workers are constructor parameters, required pairwise distinct, as running threads' ids are. The caller's thread id is a parameter of `PushWork`.
- The accessors `Worker::id` and `Worker::threadId` (wstpool.h:130-137) are the fields `id` and `threadId`.
- A default-constructed, empty work item is modelled by the constant `NoWork`.
- `Worker.Push` and `Worker.Step` take the pool as a parameter and a ghost index of the worker in it, instead of the stored back-pointer `mPool`.
- The demo's `main` (example/main.cpp:19-44) is not modelled: submitting jobs, waiting on futures and printing.
- `Schedule.WorkerId` does not model the narrowing of the `size_t` value `1000 + i` to the `int` id parameter of `Worker` (wstpool.h:26, 107). No proof depends on it: the narrowed ids stay pairwise distinct for every worker count below 2^32.
- `Primes.IsPrime` does not model C++ `int` width. It needs none: the loop counter stays below `n`, and `%` is only applied to positive operands, where C++ and Dafny agree.
