/** The deterministic scheduling rules of the pool, stated on values: worker
    ids, the round-robin steal-nudge cursor, routing of a submission, choice of
    a steal victim, and the bookkeeping of queued tasks as a multiset. */
module Schedule {
  import opened TaskQueue

  /** The identity of an OS thread, as compared by the routing rule. */
  type ThreadId = int

  datatype Option<T> = None | Some(value: T)

  /** The id the pool gives the worker at position `i` when it is built. */
  function WorkerId(i: nat): (id: int)
    ensures id >= 1000
  {
    1000 + i
  }

  /** Workers at different positions have different ids, so excluding one id
      from a steal excludes exactly one worker. */
  lemma WorkerIdInjective(i: nat, j: nat)
    ensures WorkerId(i) == WorkerId(j) <==> i == j
  {
  }

  // ---------------------------------------------------------------------------
  // The steal-nudge cursor

  /** One advance of the rotation cursor over `n` workers: step forward, and
      wrap to the first worker when the end of the list is reached. */
  function Advance(c: nat, n: nat): (r: nat)
    requires c < n
    ensures r < n
  {
    if c + 1 == n then 0 else c + 1
  }

  /** One advance is rotation by one modulo the worker count. */
  lemma AdvanceIsSuccessorMod(c: nat, n: nat)
    requires c < n
    ensures Advance(c, n) == (c + 1) % n
  {
    if c + 1 == n {
      ModUnique(c + 1, n, 1, 0);
    } else {
      ModUnique(c + 1, n, 0, c + 1);
    }
  }

  /** The cursor after `k` advances from `c`. */
  function AdvanceBy(c: nat, n: nat, k: nat): (r: nat)
    requires c < n
    ensures r < n
  {
    if k == 0 then c else Advance(AdvanceBy(c, n, k - 1), n)
  }

  /** Advancing `k` times is rotation by `k` modulo the worker count. */
  lemma {:induction false} AdvanceByIsRotation(c: nat, n: nat, k: nat)
    requires c < n
    ensures AdvanceBy(c, n, k) == (c + k) % n
  {
    if k == 0 {
      ModUnique(c, n, 0, c);
    } else {
      AdvanceByIsRotation(c, n, k - 1);
      AdvanceIsSuccessorMod(AdvanceBy(c, n, k - 1), n);
      ModSucc(c + k - 1, n);
    }
  }

  lemma MulAtLeast(d: int, n: int)
    requires d >= 1 && n > 0
    ensures d * n >= n
  {
  }

  /** Division with remainder has one answer: if x == q * n + r with
      0 <= r < n, then r is x % n. */
  lemma ModUnique(x: int, n: int, q: int, r: int)
    requires n > 0 && 0 <= r < n && x == q * n + r
    ensures x % n == r
  {
    var q', r' := x / n, x % n;
    assert x == q' * n + r';
    assert (q - q') * n == r' - r;
    if q - q' >= 1 {
      MulAtLeast(q - q', n);
    } else if q' - q >= 1 {
      MulAtLeast(q' - q, n);
    }
  }

  lemma ModSucc(a: nat, n: nat)
    requires n > 0
    ensures (a % n + 1) % n == (a + 1) % n
  {
    var q, r := a / n, a % n;
    assert a == q * n + r;
    if r + 1 < n {
      ModUnique(a + 1, n, q, r + 1);
      ModUnique(r + 1, n, 0, r + 1);
    } else {
      assert a + 1 == (q + 1) * n + 0;
      ModUnique(a + 1, n, q + 1, 0);
      ModUnique(r + 1, n, 1, 0);
    }
  }

  /** Every worker is nudged within any `n` consecutive submissions: starting
      from cursor `c`, worker `j` is reached after `k` advances for some
      1 <= k <= n. */
  lemma EveryWorkerNudged(c: nat, n: nat, j: nat)
    requires c < n && j < n
    ensures exists k :: 1 <= k <= n && AdvanceBy(c, n, k) == j
  {
    var k := if j > c then j - c else j + n - c;
    AdvanceByIsRotation(c, n, k);
    if j > c {
      ModUnique(c + k, n, 0, j);
    } else {
      ModUnique(c + k, n, 1, j);
    }
    assert AdvanceBy(c, n, k) == j;
  }

  // ---------------------------------------------------------------------------
  // Routing a submission

  /** The position of the first worker whose thread is `caller`, scanning from
      position `i`. */
  function FindThread(tids: seq<ThreadId>, caller: ThreadId, i: nat): (r: Option<nat>)
    requires i <= |tids|
    decreases |tids| - i
    ensures r.Some? ==> i <= r.value < |tids| && tids[r.value] == caller
    ensures r.Some? ==> forall j :: i <= j < r.value ==> tids[j] != caller
    ensures r.None? ==> forall j :: i <= j < |tids| ==> tids[j] != caller
  {
    if i == |tids| then None
    else if tids[i] == caller then Some(i)
    else FindThread(tids, caller, i + 1)
  }

  /** The destination of a submission from thread `caller`: the worker running
      on that thread, or else the first worker. */
  function Route(tids: seq<ThreadId>, caller: ThreadId): (k: nat)
    requires |tids| >= 1
    ensures k < |tids|
    ensures caller in tids ==> tids[k] == caller && caller !in tids[..k]
    ensures caller !in tids ==> k == 0
  {
    match FindThread(tids, caller, 0)
    case Some(k) => k
    case None => 0
  }

  /** When worker threads are pairwise distinct, the routing target is the one
      and only worker running on the caller's thread. */
  lemma RouteIsOwnWorker(tids: seq<ThreadId>, caller: ThreadId, j: nat)
    requires j < |tids| && tids[j] == caller
    requires forall a, b :: 0 <= a < b < |tids| ==> tids[a] != tids[b]
    ensures Route(tids, caller) == j
  {
    var k := Route(tids, caller);
    assert caller in tids;
    if k < j {
      assert tids[k] == tids[j];
    }
  }

  // ---------------------------------------------------------------------------
  // Choosing a steal victim

  /** The first worker at position `i` or later, in list order, that a thief
      with id `excludeId` may rob: another worker whose queue is not empty. */
  function FirstVictimFrom(qs: seq<seq<Task>>, excludeId: int, i: nat): (r: Option<nat>)
    requires i <= |qs|
    decreases |qs| - i
    ensures r.Some? ==> i <= r.value < |qs| && WorkerId(r.value) != excludeId && qs[r.value] != []
    ensures r.Some? ==> forall j :: i <= j < r.value && WorkerId(j) != excludeId ==> qs[j] == []
    ensures r.None? ==> forall j :: i <= j < |qs| && WorkerId(j) != excludeId ==> qs[j] == []
  {
    if i == |qs| then None
    else if WorkerId(i) != excludeId && qs[i] != [] then Some(i)
    else FirstVictimFrom(qs, excludeId, i + 1)
  }

  /** The worker a steal on behalf of `excludeId` takes from, if any. */
  function FirstVictim(qs: seq<seq<Task>>, excludeId: int): (r: Option<nat>)
    ensures r.None? <==> forall j :: 0 <= j < |qs| && WorkerId(j) != excludeId ==> qs[j] == []
    ensures r.Some? ==> r.value < |qs| && WorkerId(r.value) != excludeId && qs[r.value] != []
    ensures r.Some? ==> forall j :: 0 <= j < r.value && WorkerId(j) != excludeId ==> qs[j] == []
  {
    FirstVictimFrom(qs, excludeId, 0)
  }

  /** The queues after the back task of queue `v` is taken. */
  function TakeBack(qs: seq<seq<Task>>, v: nat): (qs': seq<seq<Task>>)
    requires v < |qs| && qs[v] != []
    ensures |qs'| == |qs|
    ensures qs'[v] + [qs[v][|qs[v]| - 1]] == qs[v]
    ensures forall j :: 0 <= j < |qs| && j != v ==> qs'[j] == qs[j]
  {
    qs[v := qs[v][..|qs[v]| - 1]]
  }

  /** The queues after the front task of queue `k` is taken. */
  function TakeFront(qs: seq<seq<Task>>, k: nat): (qs': seq<seq<Task>>)
    requires k < |qs| && qs[k] != []
    ensures |qs'| == |qs|
    ensures [qs[k][0]] + qs'[k] == qs[k]
    ensures forall j :: 0 <= j < |qs| && j != k ==> qs'[j] == qs[j]
  {
    qs[k := qs[k][1..]]
  }

  // ---------------------------------------------------------------------------
  // One iteration of a worker's loop

  /** What one iteration of a worker's loop finds: a task to run, with the
      queues left behind, or nothing (the worker parks). */
  datatype Outcome = Run(task: Task, after: seq<seq<Task>>) | Park

  /** The rule of one iteration for the worker at position `k`: the front of
      its own queue if there is one, else the back of the first queue of
      another worker that has one, else nothing. The worker parks exactly when
      every queue of the pool, its own included, is empty; a task handed out
      is removed from exactly one queue, so queued plus handed-out tasks are
      conserved. */
  function NextWork(qs: seq<seq<Task>>, k: nat): (r: Outcome)
    requires k < |qs|
    ensures r.Park? <==> forall i :: 0 <= i < |qs| ==> qs[i] == []
    ensures r.Run? ==> |r.after| == |qs| && Total(r.after) + multiset{r.task} == Total(qs)
  {
    if qs[k] != [] then
      TakeFrontRemovesOne(qs, k);
      Run(qs[k][0], TakeFront(qs, k))
    else match FirstVictim(qs, WorkerId(k))
      case None =>
        OthersIdleMeansAllIdle(qs, k);
        Park
      case Some(v) =>
        TakeBackRemovesOne(qs, v);
        Run(qs[v][|qs[v]| - 1], TakeBack(qs, v))
  }

  /** A thief whose own queue is empty and who finds no victim sees a pool in
      which every queue is empty. */
  lemma OthersIdleMeansAllIdle(qs: seq<seq<Task>>, k: nat)
    requires k < |qs| && qs[k] == []
    requires forall j :: 0 <= j < |qs| && WorkerId(j) != WorkerId(k) ==> qs[j] == []
    ensures forall i :: 0 <= i < |qs| ==> qs[i] == []
  {
    forall i | 0 <= i < |qs| ensures qs[i] == [] {
      if i != k {
        WorkerIdInjective(i, k);
      }
    }
  }

  // ---------------------------------------------------------------------------
  // Conservation of tasks

  /** Every task queued anywhere in the pool, with multiplicity. */
  function Total(qs: seq<seq<Task>>): multiset<Task>
  {
    if qs == [] then multiset{} else Total(qs[..|qs| - 1]) + multiset(qs[|qs| - 1])
  }

  /** Replacing one queue changes the pool's tasks by exactly that queue's
      difference. */
  lemma {:induction false} TotalUpdate(qs: seq<seq<Task>>, k: nat, s: seq<Task>)
    requires k < |qs|
    ensures Total(qs[k := s]) + multiset(qs[k]) == Total(qs) + multiset(s)
  {
    var last := |qs| - 1;
    var qs' := qs[k := s];
    assert Total(qs) == Total(qs[..last]) + multiset(qs[last]);
    assert Total(qs') == Total(qs'[..last]) + multiset(qs'[last]);
    if k < last {
      assert qs'[..last] == qs[..last][k := s];
      assert qs[..last][k] == qs[k];
      assert qs'[last] == qs[last];
      TotalUpdate(qs[..last], k, s);
      calc {
        Total(qs') + multiset(qs[k]);
        Total(qs[..last][k := s]) + multiset(qs[k]) + multiset(qs[last]);
        Total(qs[..last]) + multiset(s) + multiset(qs[last]);
      }
    } else {
      assert qs'[..last] == qs[..last];
    }
  }

  lemma Cancel(a: multiset<Task>, b: multiset<Task>, x: multiset<Task>)
    requires a + x == b + x
    ensures a == b
  {
    assert forall e :: a[e] == (a + x)[e] - x[e];
  }

  /** Appending a task to one queue adds exactly that task to the pool. */
  lemma AppendAddsOne(qs: seq<seq<Task>>, k: nat, t: Task)
    requires k < |qs|
    ensures Total(qs[k := qs[k] + [t]]) == Total(qs) + multiset{t}
    ensures |Total(qs[k := qs[k] + [t]])| == |Total(qs)| + 1
  {
    TotalUpdate(qs, k, qs[k] + [t]);
    assert multiset(qs[k] + [t]) == multiset(qs[k]) + multiset{t};
    Cancel(Total(qs[k := qs[k] + [t]]), Total(qs) + multiset{t}, multiset(qs[k]));
  }

  /** Taking the front of one queue removes exactly that task from the pool. */
  lemma TakeFrontRemovesOne(qs: seq<seq<Task>>, k: nat)
    requires k < |qs| && qs[k] != []
    ensures Total(TakeFront(qs, k)) + multiset{qs[k][0]} == Total(qs)
  {
    var rest, x := qs[k][1..], qs[k][0];
    assert qs[k] == [x] + rest;
    assert multiset(qs[k]) == multiset(rest) + multiset{x};
    TotalUpdate(qs, k, rest);
    Cancel(Total(qs[k := rest]) + multiset{x}, Total(qs), multiset(rest));
  }

  /** Taking the back of one queue removes exactly that task from the pool. */
  lemma TakeBackRemovesOne(qs: seq<seq<Task>>, v: nat)
    requires v < |qs| && qs[v] != []
    ensures Total(TakeBack(qs, v)) + multiset{qs[v][|qs[v]| - 1]} == Total(qs)
  {
    var n := |qs[v]|;
    var rest, x := qs[v][..n - 1], qs[v][n - 1];
    assert qs[v] == rest + [x];
    assert multiset(qs[v]) == multiset(rest) + multiset{x};
    TotalUpdate(qs, v, rest);
    Cancel(Total(qs[v := rest]) + multiset{x}, Total(qs), multiset(rest));
  }

  /** No task occurs twice in `s`. */
  predicate Distinct(s: seq<Task>)
  {
    forall i, j :: 0 <= i < j < |s| ==> s[i] != s[j]
  }

  lemma {:induction false} DistinctCountsAtMostOne(s: seq<Task>, x: Task)
    requires Distinct(s)
    ensures multiset(s)[x] <= 1
  {
    if s != [] {
      var rest := s[1..];
      assert s == [s[0]] + rest;
      assert Distinct(rest) by {
        forall i, j | 0 <= i < j < |rest| ensures rest[i] != rest[j] {
          assert rest[i] == s[i + 1] && rest[j] == s[j + 1];
        }
      }
      DistinctCountsAtMostOne(rest, x);
      if x == s[0] {
        assert x !in rest by {
          forall j | 0 <= j < |rest| ensures rest[j] != x {
            assert rest[j] == s[j + 1];
          }
        }
      }
    }
  }

  lemma RepeatCountsTwice(s: seq<Task>, i: nat, j: nat)
    requires i < j < |s| && s[i] == s[j]
    ensures multiset(s)[s[i]] >= 2
  {
    assert s == s[..i] + [s[i]] + s[i + 1..j] + [s[j]] + s[j + 1..];
  }

  /** If the queued and executed tasks together are exactly the submitted ones
      and no task was submitted twice, then no task was executed twice. */
  lemma NoTaskRunsTwice(queued: multiset<Task>, executed: seq<Task>, submitted: seq<Task>)
    requires queued + multiset(executed) == multiset(submitted)
    requires Distinct(submitted)
    ensures Distinct(executed)
  {
    forall i, j | 0 <= i < j < |executed| ensures executed[i] != executed[j] {
      if executed[i] == executed[j] {
        RepeatCountsTwice(executed, i, j);
        DistinctCountsAtMostOne(submitted, executed[i]);
        assert false;
      }
    }
  }
  /** Every submitted task is either still queued or has been run, and nothing
      else is queued or has been run. */
  predicate Conserved(qs: seq<seq<Task>>, executed: seq<Task>, submitted: seq<Task>)
  {
    Total(qs) + multiset(executed) == multiset(submitted)
  }

  /** Queuing a newly submitted task on one worker keeps the books balanced. */
  lemma SubmitConserves(qs: seq<seq<Task>>, executed: seq<Task>, submitted: seq<Task>, k: nat, t: Task)
    requires k < |qs| && Conserved(qs, executed, submitted)
    ensures Conserved(qs[k := qs[k] + [t]], executed, submitted + [t])
  {
    AppendAddsOne(qs, k, t);
    assert multiset(submitted + [t]) == multiset(submitted) + multiset{t};
  }

  /** Running the task that one iteration of a worker's loop hands out keeps
      the books balanced; parking changes nothing. */
  lemma StepConserves(qs: seq<seq<Task>>, executed: seq<Task>, submitted: seq<Task>, k: nat)
    requires k < |qs| && Conserved(qs, executed, submitted)
    ensures NextWork(qs, k).Run? ==>
      Conserved(NextWork(qs, k).after, executed + [NextWork(qs, k).task], submitted)
  {
    if NextWork(qs, k).Run? {
      var t := NextWork(qs, k).task;
      assert multiset(executed + [t]) == multiset(executed) + multiset{t};
    }
  }
}
