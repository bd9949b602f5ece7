/** The `FontWorkerPool` scheduler of app.js with the concurrency stripped
    off: every handler runs to completion on the event loop, so the pool is a
    sequential state machine. Worker replies and crashes arrive as explicit
    events; the promise a caller of `createSubset` waits on is settled by
    appending to `outcomes`. A worker record is referred to by its position
    in `workers` (the JavaScript keeps a reference to the record object; the
    array is never reordered, only emptied). */
module Pool {
  import opened Wrappers

  type Bytes = seq<bv8>

  /** `{ worker, id, busy }`, without the handle to the thread. */
  datatype WorkerInfo = WorkerInfo(id: int, busy: bool)

  /** A queued subset job, without its `resolve`/`reject` callbacks. */
  datatype Task = Task(codepoints: seq<int>, outputFormat: string, index: int, total: int)

  /** An `activeTasks` entry: the worker record and the job. */
  datatype ActiveTask = ActiveTask(slot: nat, task: Task)

  datatype Reason = TaskFailed(message: string) | WorkerCrashed(workerId: int, message: string)

  /** How the promise of a job was settled. */
  datatype Outcome = Resolved(task: Task, buffer: Bytes) | Rejected(task: Task, reason: Reason)

  /** The `message` events a pool worker can post after start-up: a finished
      subset, a job-level error (each with a `taskId` that may be missing),
      or anything else. */
  datatype Reply =
    | SubsetCreated(taskId: Option<int>, buffer: Bytes)
    | Failed(taskId: Option<int>, message: string)
    | OtherReply

  datatype PoolState = PoolState(
    maxWorkers: int,
    workers: seq<WorkerInfo>,
    taskQueue: seq<Task>,
    activeTasks: map<int, ActiveTask>,
    nextTaskId: int,
    initialized: bool,
    outcomes: seq<Outcome>)

  // ---------------------------------------------------------------------
  // Pool size

  /** JavaScript truthiness of a number that may be missing or `NaN` (both
      written `None`). */
  predicate Truthy(n: Option<int>)
  {
    n.Some? && n.value != 0
  }

  /** `Math.min(maxWorkers || (navigator.hardwareConcurrency || 4), 8)`. */
  function PoolSize(requested: Option<int>, hardwareConcurrency: Option<int>): (n: int)
    ensures n <= 8
    ensures Truthy(requested) ==> n == if requested.value < 8 then requested.value else 8
    ensures !Truthy(requested) && Truthy(hardwareConcurrency) ==>
      n == if hardwareConcurrency.value < 8 then hardwareConcurrency.value else 8
    ensures !Truthy(requested) && !Truthy(hardwareConcurrency) ==> n == 4
  {
    var m := if Truthy(requested) then requested.value
      else if Truthy(hardwareConcurrency) then hardwareConcurrency.value
      else 4;
    if m < 8 then m else 8
  }

  /** With no negative count given, the pool has between one and eight
      workers. */
  lemma PoolSizeRange(requested: Option<int>, hardwareConcurrency: Option<int>)
    requires requested.Some? ==> requested.value >= 0
    requires hardwareConcurrency.Some? ==> hardwareConcurrency.value >= 0
    ensures 1 <= PoolSize(requested, hardwareConcurrency) <= 8
  {
  }

  // ---------------------------------------------------------------------
  // The invariant

  /** One job per worker, task ids fresh, and a worker busy exactly when one
      active task names it. Before a successful start-up there are no
      workers and no active tasks. Worker ids are distinct. */
  ghost predicate Valid(s: PoolState)
  {
    && 0 <= s.nextTaskId
    && (!s.initialized ==> s.workers == [] && s.activeTasks == map[])
    && (forall i, j :: 0 <= i < j < |s.workers| ==> s.workers[i].id != s.workers[j].id)
    && (forall id :: id in s.activeTasks ==> 0 <= id < s.nextTaskId && s.activeTasks[id].slot < |s.workers|)
    && (forall a, b :: a in s.activeTasks && b in s.activeTasks && a != b ==>
          s.activeTasks[a].slot != s.activeTasks[b].slot)
    && (forall i :: 0 <= i < |s.workers| ==>
          (s.workers[i].busy <==> exists id :: id in s.activeTasks && s.activeTasks[id].slot == i))
  }

  /** A job waits in the queue only while every worker is busy. */
  ghost predicate Saturated(s: PoolState)
  {
    s.taskQueue != [] ==> forall i :: 0 <= i < |s.workers| ==> s.workers[i].busy
  }

  // ---------------------------------------------------------------------
  // Transitions

  /** `this.workers.find(w => !w.busy)`, as a position. */
  function FindIdle(ws: seq<WorkerInfo>): (r: Option<nat>)
    ensures r.None? <==> forall i :: 0 <= i < |ws| ==> ws[i].busy
    ensures r.Some? ==> r.value < |ws| && !ws[r.value].busy && forall i :: 0 <= i < r.value ==> ws[i].busy
    decreases |ws|
  {
    if ws == [] then None
    else if !ws[0].busy then Some(0)
    else match FindIdle(ws[1..])
      case None => None
      case Some(i) => Some(i + 1)
  }

  /** `executeTask`: the worker turns busy and the job becomes active under
      the next task id. */
  function Exec(s: PoolState, slot: nat, task: Task): PoolState
    requires slot < |s.workers|
  {
    s.(workers := s.workers[slot := s.workers[slot].(busy := true)],
       activeTasks := s.activeTasks[s.nextTaskId := ActiveTask(slot, task)],
       nextTaskId := s.nextTaskId + 1)
  }

  /** `processNextTask`: the queue head goes to the first idle worker, if
      there are both. */
  function Next(s: PoolState): PoolState
  {
    if s.taskQueue == [] then s
    else match FindIdle(s.workers)
      case None => s
      case Some(i) => Exec(s.(taskQueue := s.taskQueue[1..]), i, s.taskQueue[0])
  }

  /** `createSubset`: run at once on the first idle worker, else queue. */
  function Submit(s: PoolState, task: Task): PoolState
  {
    match FindIdle(s.workers)
    case Some(i) => Exec(s, i, task)
    case None => s.(taskQueue := s.taskQueue + [task])
  }

  function MarkIdle(ws: seq<WorkerInfo>, slot: nat): seq<WorkerInfo>
  {
    if slot < |ws| then ws[slot := ws[slot].(busy := false)] else ws
  }

  /** Settling an active job: its worker turns idle, the entry goes, and its
      promise is settled. */
  function Settle(s: PoolState, id: int, outcome: Outcome): PoolState
    requires id in s.activeTasks
  {
    s.(workers := MarkIdle(s.workers, s.activeTasks[id].slot),
       activeTasks := s.activeTasks - {id},
       outcomes := s.outcomes + [outcome])
  }

  /** `handleWorkerMessage`: a completion or job error for an active task
      settles it and then drains one queued job; anything else, including a
      stale or missing task id, changes nothing. */
  function OnReply(s: PoolState, reply: Reply): PoolState
  {
    match reply
    case SubsetCreated(Some(id), buffer) =>
      if id in s.activeTasks then Next(Settle(s, id, Resolved(s.activeTasks[id].task, buffer))) else s
    case Failed(Some(id), message) =>
      if id in s.activeTasks then Next(Settle(s, id, Rejected(s.activeTasks[id].task, TaskFailed(message)))) else s
    case _ => s
  }

  /** `error.message || '未知错误'`. */
  function CrashMessage(message: string): string
  {
    if message == "" then "\U{672A}\U{77E5}\U{9519}\U{8BEF}" else message
  }

  /** The active task `id` runs on the worker whose id is `w`. */
  ghost predicate Names(s: PoolState, id: int, w: int)
  {
    id in s.activeTasks && s.activeTasks[id].slot < |s.workers| && s.workers[s.activeTasks[id].slot].id == w
  }

  ghost function CrashedTask(s: PoolState, w: int): (id: int)
    requires exists id :: Names(s, id, w)
    ensures Names(s, id, w)
  {
    var id :| Names(s, id, w); id
  }

  /** `handleWorkerError`: the active tasks on the crashed worker are
      rejected and removed and the worker turns idle; the queue is left as it
      is. Under `Valid` there is at most one such task. */
  ghost function Crash(s: PoolState, w: int, message: string): PoolState
  {
    if exists id :: Names(s, id, w) then
      var id := CrashedTask(s, w);
      Settle(s, id, Rejected(s.activeTasks[id].task, WorkerCrashed(w, CrashMessage(message))))
    else s
  }

  /** The workers `initialize` creates: one idle record per index below the
      pool size whose `new Worker` call succeeds. */
  function CreatedWorkers(n: int, created: int -> bool): (ws: seq<WorkerInfo>)
    ensures forall i :: 0 <= i < |ws| ==> !ws[i].busy && 0 <= ws[i].id < n && created(ws[i].id)
    ensures forall i, j :: 0 <= i < j < |ws| ==> ws[i].id < ws[j].id
    decreases if n < 0 then 0 else n
  {
    if n <= 0 then []
    else CreatedWorkers(n - 1, created) + (if created(n - 1) then [WorkerInfo(n - 1, false)] else [])
  }

  /** Every index whose worker could be created is in the pool. */
  lemma {:induction false} CreatedWorkersComplete(n: int, created: int -> bool, k: int)
    requires 0 <= k < n && created(k)
    ensures exists i :: 0 <= i < |CreatedWorkers(n, created)| && CreatedWorkers(n, created)[i].id == k
    decreases n
  {
    var ws := CreatedWorkers(n, created);
    if k == n - 1 {
      assert ws[|ws| - 1].id == k;
    } else {
      CreatedWorkersComplete(n - 1, created, k);
      var i :| 0 <= i < |CreatedWorkers(n - 1, created)| && CreatedWorkers(n - 1, created)[i].id == k;
      assert ws[i] == CreatedWorkers(n - 1, created)[i];
    }
  }

  /** Every worker in `ws` answers its `parseFont` with `fontParsed`, so
      `Promise.all` over their load promises resolves (it does at once when
      there are none). */
  predicate AllLoad(ws: seq<WorkerInfo>, loads: int -> bool)
  {
    forall i :: 0 <= i < |ws| ==> loads(ws[i].id)
  }

  /** Whether `initialize` resolves: a started pool waits on reloading its
      own workers, a new one on loading every worker it could create. */
  predicate InitOk(s: PoolState, created: int -> bool, loads: int -> bool)
  {
    if s.initialized then AllLoad(s.workers, loads)
    else AllLoad(CreatedWorkers(s.maxWorkers, created), loads)
  }

  /** `initialize`: a started pool only reloads the font into its workers;
      otherwise workers are created and, unless one of them fails to load the
      font, the pool is started; on failure every worker is dropped. */
  function Init(s: PoolState, created: int -> bool, loads: int -> bool): PoolState
  {
    if s.initialized then s
    else if InitOk(s, created, loads) then s.(workers := s.workers + CreatedWorkers(s.maxWorkers, created), initialized := true)
    else s.(workers := [])
  }

  /** `terminate`: no workers, no queue, no active tasks. The promises of the
      dropped jobs are never settled. */
  function Terminate(s: PoolState): PoolState
  {
    s.(workers := [], taskQueue := [], activeTasks := map[], initialized := false)
  }

  // ---------------------------------------------------------------------
  // What the transitions preserve

  lemma ExecKeepsValid(s: PoolState, slot: nat, task: Task)
    requires Valid(s) && slot < |s.workers| && !s.workers[slot].busy
    ensures s.nextTaskId !in s.activeTasks
    ensures Valid(Exec(s, slot, task))
  {
    var t := Exec(s, slot, task);
    forall i | 0 <= i < |t.workers|
      ensures t.workers[i].busy <==> exists id :: id in t.activeTasks && t.activeTasks[id].slot == i
    {
      if i == slot {
        assert t.activeTasks[s.nextTaskId].slot == i;
      } else if t.workers[i].busy {
        var id :| id in s.activeTasks && s.activeTasks[id].slot == i;
        assert id in t.activeTasks && t.activeTasks[id].slot == i;
      }
    }
    assert forall i, j :: 0 <= i < j < |t.workers| ==> t.workers[i].id == s.workers[i].id && t.workers[j].id == s.workers[j].id;
  }

  /** Dispatch gives the job a fresh id, one above every active id, and
      makes exactly that id active, on an idle worker. */
  lemma ExecFresh(s: PoolState, slot: nat, task: Task)
    requires Valid(s) && slot < |s.workers| && !s.workers[slot].busy
    ensures forall id :: id in s.activeTasks ==> id < s.nextTaskId
    ensures Exec(s, slot, task).activeTasks.Keys == s.activeTasks.Keys + {s.nextTaskId}
    ensures Exec(s, slot, task).nextTaskId == s.nextTaskId + 1
  {
    ExecKeepsValid(s, slot, task);
  }

  lemma NextKeepsValid(s: PoolState)
    requires Valid(s)
    ensures Valid(Next(s))
  {
    if s.taskQueue != [] && FindIdle(s.workers).Some? {
      ExecKeepsValid(s.(taskQueue := s.taskQueue[1..]), FindIdle(s.workers).value, s.taskQueue[0]);
    }
  }

  /** `processNextTask` hands the queue head, and only it, to the first idle
      worker under the next task id; with an empty queue or no idle worker
      it changes nothing. */
  lemma NextSpec(s: PoolState)
    ensures s.taskQueue != [] && FindIdle(s.workers).Some? ==>
      var i := FindIdle(s.workers).value;
      && Next(s).taskQueue == s.taskQueue[1..]
      && Next(s).activeTasks == s.activeTasks[s.nextTaskId := ActiveTask(i, s.taskQueue[0])]
      && Next(s).nextTaskId == s.nextTaskId + 1
      && Next(s).workers == s.workers[i := s.workers[i].(busy := true)]
      && (forall k :: 0 <= k < i ==> s.workers[k].busy)
      && Next(s).outcomes == s.outcomes
    ensures s.taskQueue == [] || FindIdle(s.workers).None? ==> Next(s) == s
  {
  }

  /** `createSubset` on a pool with an idle worker dispatches the job and
      leaves the queue alone; with every worker busy it appends the job to
      the queue and changes nothing else. The invariant is kept. */
  lemma SubmitSpec(s: PoolState, task: Task)
    requires Valid(s)
    ensures Valid(Submit(s, task))
    ensures (exists i :: 0 <= i < |s.workers| && !s.workers[i].busy) ==>
      && FindIdle(s.workers).Some?
      && Submit(s, task).taskQueue == s.taskQueue
      && Submit(s, task).activeTasks == s.activeTasks[s.nextTaskId := ActiveTask(FindIdle(s.workers).value, task)]
      && s.nextTaskId !in s.activeTasks
      && Submit(s, task).nextTaskId == s.nextTaskId + 1
      && !s.workers[FindIdle(s.workers).value].busy
      && Submit(s, task).workers[FindIdle(s.workers).value].busy
    ensures (forall i :: 0 <= i < |s.workers| ==> s.workers[i].busy) ==>
      Submit(s, task) == s.(taskQueue := s.taskQueue + [task])
  {
    match FindIdle(s.workers)
    case Some(i) =>
      ExecKeepsValid(s, i, task);
      ExecFresh(s, i, task);
    case None =>
  }

  /** A saturated pool stays saturated when a job is submitted. */
  lemma SubmitKeepsSaturated(s: PoolState, task: Task)
    requires Valid(s)
    ensures Saturated(s) ==> Saturated(Submit(s, task))
  {
    match FindIdle(s.workers)
    case Some(i) =>
    case None =>
  }

  lemma SettleKeepsValid(s: PoolState, id: int, outcome: Outcome)
    requires Valid(s) && id in s.activeTasks
    ensures Valid(Settle(s, id, outcome))
  {
    var t := Settle(s, id, outcome);
    var slot := s.activeTasks[id].slot;
    forall i | 0 <= i < |t.workers|
      ensures t.workers[i].busy <==> exists k :: k in t.activeTasks && t.activeTasks[k].slot == i
    {
      if i != slot && s.workers[i].busy {
        var k :| k in s.activeTasks && s.activeTasks[k].slot == i;
        assert k in t.activeTasks;
      }
    }
    assert forall i, j :: 0 <= i < j < |t.workers| ==> t.workers[i].id == s.workers[i].id && t.workers[j].id == s.workers[j].id;
  }

  /** A reply with a missing or unknown task id, or of another kind, leaves
      the whole state unchanged. */
  lemma StaleReplyIgnored(s: PoolState, reply: Reply)
    requires reply.SubsetCreated? || reply.Failed? ==>
      reply.taskId.None? || reply.taskId.value !in s.activeTasks
    ensures OnReply(s, reply) == s
  {
  }

  /** The outcome a known reply records for its job. */
  function ReplyOutcome(task: Task, reply: Reply): Outcome
  {
    match reply
    case SubsetCreated(_, buffer) => Resolved(task, buffer)
    case Failed(_, message) => Rejected(task, TaskFailed(message))
    case OtherReply => Rejected(task, TaskFailed(""))
  }

  /** A known completion or job error settles that job once with the
      matching outcome and frees its worker; every other active job keeps its
      entry. With an empty queue nothing else happens; otherwise the queue
      head, and only it, goes under the next task id to the first idle
      worker, which is at or before the freed one. The invariant and
      saturation are kept. */
  lemma ReplySpec(s: PoolState, id: int, reply: Reply)
    requires Valid(s) && id in s.activeTasks
    requires (reply.SubsetCreated? || reply.Failed?) && reply.taskId == Some(id)
    ensures var t := OnReply(s, reply);
      var slot := s.activeTasks[id].slot;
      && Valid(t)
      && id !in t.activeTasks
      && (forall k :: k in s.activeTasks && k != id ==> k in t.activeTasks && t.activeTasks[k] == s.activeTasks[k])
      && t.outcomes == s.outcomes + [ReplyOutcome(s.activeTasks[id].task, reply)]
      && (s.taskQueue == [] ==>
            && t.taskQueue == []
            && t.activeTasks == s.activeTasks - {id}
            && t.nextTaskId == s.nextTaskId
            && t.workers == MarkIdle(s.workers, slot)
            && !t.workers[slot].busy)
      && (s.taskQueue != [] ==>
            var free := FindIdle(MarkIdle(s.workers, slot));
            && free.Some? && free.value <= slot
            && t.taskQueue == s.taskQueue[1..]
            && t.activeTasks == (s.activeTasks - {id})[s.nextTaskId := ActiveTask(free.value, s.taskQueue[0])]
            && t.nextTaskId == s.nextTaskId + 1)
      && (Saturated(s) ==> Saturated(t))
  {
    var outcome := ReplyOutcome(s.activeTasks[id].task, reply);
    var u := Settle(s, id, outcome);
    assert OnReply(s, reply) == Next(u);
    SettleKeepsValid(s, id, outcome);
    NextKeepsValid(u);
    NextSpec(u);
    var slot := s.activeTasks[id].slot;
    assert !u.workers[slot].busy;
    if Saturated(s) {
      SettledDrainSaturated(s, id, outcome);
    }
  }

  /** Freeing one worker of a saturated pool and draining once leaves it
      saturated: the freed worker is the only idle one, so it takes the
      queue head. */
  lemma SettledDrainSaturated(s: PoolState, id: int, outcome: Outcome)
    requires Valid(s) && Saturated(s) && id in s.activeTasks
    ensures Saturated(Next(Settle(s, id, outcome)))
  {
    var u := Settle(s, id, outcome);
    var slot := s.activeTasks[id].slot;
    if u.taskQueue != [] {
      assert forall i :: 0 <= i < |u.workers| && i != slot ==> u.workers[i].busy;
      assert !u.workers[slot].busy;
      assert FindIdle(u.workers) == Some(slot);
    }
  }

  lemma CrashedTaskUnique(s: PoolState, w: int, a: int, b: int)
    requires Valid(s) && Names(s, a, w) && Names(s, b, w)
    ensures a == b
  {
  }

  /** `handleWorkerError(w)` removes exactly the active tasks on worker `w`
      and rejects each of them, leaves the queue and the other tasks alone,
      keeps the worker in the pool, and keeps the invariant. */
  lemma CrashSpec(s: PoolState, w: int, message: string)
    requires Valid(s)
    ensures var t := Crash(s, w, message);
      && Valid(t)
      && t.taskQueue == s.taskQueue
      && t.activeTasks.Keys == s.activeTasks.Keys - set id | id in s.activeTasks && Names(s, id, w)
      && (forall id :: id in t.activeTasks ==> t.activeTasks[id] == s.activeTasks[id])
      && |t.workers| == |s.workers|
      && (forall i :: 0 <= i < |s.workers| ==> t.workers[i].id == s.workers[i].id)
      && (forall i :: 0 <= i < |s.workers| && s.workers[i].id != w ==> t.workers[i] == s.workers[i])
      && (forall i :: 0 <= i < |s.workers| && s.workers[i].id == w ==> !t.workers[i].busy)
  {
    if exists id :: Names(s, id, w) {
      var id := CrashedTask(s, w);
      SettleKeepsValid(s, id, Rejected(s.activeTasks[id].task, WorkerCrashed(w, CrashMessage(message))));
      forall k | k in s.activeTasks && Names(s, k, w) ensures k == id {
        CrashedTaskUnique(s, w, k, id);
      }
    } else {
      forall i | 0 <= i < |s.workers| && s.workers[i].id == w ensures !s.workers[i].busy {
        if s.workers[i].busy {
          var k :| k in s.activeTasks && s.activeTasks[k].slot == i;
          assert Names(s, k, w);
        }
      }
    }
  }

  /** A crash can leave a job waiting with an idle worker and nothing left
      to wake the queue: with one worker, busy with one job, and one job
      queued, the crash frees the worker but the queued job stays queued and
      no active task remains whose completion would drain it. */
  lemma CrashStrandsQueue()
    ensures var task := Task([65], "ttf", 1, 2);
      var s := PoolState(1, [WorkerInfo(0, true)], [task], map[0 := ActiveTask(0, Task([66], "ttf", 0, 2))], 1, true, []);
      var t := Crash(s, 0, "");
      && Valid(s) && Saturated(s)
      && t.taskQueue == [task] && !t.workers[0].busy && t.activeTasks == map[]
      && !Saturated(t)
  {
    var task := Task([65], "ttf", 1, 2);
    var s := PoolState(1, [WorkerInfo(0, true)], [task], map[0 := ActiveTask(0, Task([66], "ttf", 0, 2))], 1, true, []);
    assert Names(s, 0, 0);
    assert CrashedTask(s, 0) == 0;
  }

  /** A crash followed by one drain, as a completion does it, keeps a
      saturated pool saturated. */
  lemma CrashThenDrainSaturated(s: PoolState, w: int, message: string)
    requires Valid(s) && Saturated(s)
    ensures Valid(Next(Crash(s, w, message)))
    ensures Saturated(Next(Crash(s, w, message)))
  {
    CrashSpec(s, w, message);
    NextKeepsValid(Crash(s, w, message));
    if exists id :: Names(s, id, w) {
      var id := CrashedTask(s, w);
      SettledDrainSaturated(s, id, Rejected(s.activeTasks[id].task, WorkerCrashed(w, CrashMessage(message))));
    }
  }

  lemma InitKeepsValid(s: PoolState, created: int -> bool, loads: int -> bool)
    requires Valid(s)
    ensures Valid(Init(s, created, loads))
    ensures Init(s, created, loads).initialized <==> s.initialized || InitOk(s, created, loads)
    ensures !s.initialized && InitOk(s, created, loads) ==>
      Init(s, created, loads).workers == CreatedWorkers(s.maxWorkers, created)
    ensures !s.initialized && !InitOk(s, created, loads) ==> Init(s, created, loads).workers == []
  {
    if !s.initialized && InitOk(s, created, loads) {
      assert s.workers + CreatedWorkers(s.maxWorkers, created) == CreatedWorkers(s.maxWorkers, created);
    }
  }

  /** A new pool starts exactly when every worker whose creation succeeded
      loads the font; in particular it starts, with no workers, when no
      worker could be created at all. */
  lemma InitOkMeaning(s: PoolState, created: int -> bool, loads: int -> bool)
    requires !s.initialized
    ensures InitOk(s, created, loads) <==> forall k :: 0 <= k < s.maxWorkers && created(k) ==> loads(k)
    ensures (forall k :: 0 <= k < s.maxWorkers ==> !created(k)) ==>
      Init(s, created, loads).initialized && Init(s, created, loads).workers == s.workers
  {
    var ws := CreatedWorkers(s.maxWorkers, created);
    if InitOk(s, created, loads) {
      forall k | 0 <= k < s.maxWorkers && created(k) ensures loads(k) {
        CreatedWorkersComplete(s.maxWorkers, created, k);
      }
    }
    if forall k :: 0 <= k < s.maxWorkers ==> !created(k) {
      NoneCreated(s.maxWorkers, created);
      assert s.workers + ws == s.workers;
    }
  }

  lemma {:induction false} NoneCreated(n: int, created: int -> bool)
    requires forall k :: 0 <= k < n ==> !created(k)
    ensures CreatedWorkers(n, created) == []
    decreases if n < 0 then 0 else n
  {
    if n > 0 {
      NoneCreated(n - 1, created);
    }
  }

  lemma AllLoadSnoc(ws: seq<WorkerInfo>, w: WorkerInfo, loads: int -> bool)
    ensures AllLoad(ws + [w], loads) == (AllLoad(ws, loads) && loads(w.id))
  {
    if AllLoad(ws, loads) && loads(w.id) {
      forall i | 0 <= i < |ws + [w]| ensures loads((ws + [w])[i].id) {
        if i < |ws| {
          assert (ws + [w])[i] == ws[i];
        }
      }
    }
    if AllLoad(ws + [w], loads) {
      forall i | 0 <= i < |ws| ensures loads(ws[i].id) {
        assert (ws + [w])[i] == ws[i];
      }
      assert (ws + [w])[|ws|] == w;
    }
  }

  lemma TerminateKeepsValid(s: PoolState)
    requires Valid(s)
    ensures Valid(Terminate(s)) && Saturated(Terminate(s))
  {
  }

  // ---------------------------------------------------------------------
  // The pool object

  /** `Promise.all` over one load promise per worker: it resolves exactly
      when every worker loads the font. */
  method AwaitLoads(ws: seq<WorkerInfo>, loads: int -> bool) returns (ok: bool)
    ensures ok == AllLoad(ws, loads)
  {
    ok := true;
    for k := 0 to |ws|
      invariant ok == AllLoad(ws[..k], loads)
    {
      assert ws[..k + 1] == ws[..k] + [ws[k]];
      AllLoadSnoc(ws[..k], ws[k], loads);
      ok := ok && loads(ws[k].id);
    }
    assert ws[..|ws|] == ws;
  }

  /** The creation loop of `initialize`: one idle record for every index
      whose `new Worker` succeeds, and whether all of them load the font. */
  method CreateWorkers(n: int, created: int -> bool, loads: int -> bool)
    returns (ws: seq<WorkerInfo>, allLoaded: bool)
    ensures ws == CreatedWorkers(n, created)
    ensures allLoaded == AllLoad(ws, loads)
  {
    ws := [];
    allLoaded := true;
    var i := 0;
    while i < n
      invariant 0 <= i && (i <= n || i == 0)
      invariant ws == CreatedWorkers(i, created)
      invariant allLoaded == AllLoad(ws, loads)
    {
      assert CreatedWorkers(i + 1, created) ==
        CreatedWorkers(i, created) + (if created(i) then [WorkerInfo(i, false)] else []);
      if created(i) {
        AllLoadSnoc(ws, WorkerInfo(i, false), loads);
        ws := ws + [WorkerInfo(i, false)];
        allLoaded := allLoaded && loads(i);
      } else {
        assert CreatedWorkers(i + 1, created) == CreatedWorkers(i, created);
      }
      i := i + 1;
    }
    if i != n {
      assert CreatedWorkers(i, created) == CreatedWorkers(n, created);
    }
  }

  class FontWorkerPool {
    var maxWorkers: int
    var workers: seq<WorkerInfo>
    var taskQueue: seq<Task>
    var activeTasks: map<int, ActiveTask>
    var nextTaskId: int
    var initialized: bool
    var outcomes: seq<Outcome>

    function State(): PoolState
      reads this
    {
      PoolState(maxWorkers, workers, taskQueue, activeTasks, nextTaskId, initialized, outcomes)
    }

    /** `new FontWorkerPool(maxWorkers)`, reading `navigator.hardwareConcurrency`
        as a parameter. */
    constructor (requested: Option<int>, hardwareConcurrency: Option<int>)
      ensures State() == PoolState(PoolSize(requested, hardwareConcurrency), [], [], map[], 0, false, [])
      ensures Valid(State())
    {
      maxWorkers := PoolSize(requested, hardwareConcurrency);
      workers := [];
      taskQueue := [];
      activeTasks := map[];
      nextTaskId := 0;
      initialized := false;
      outcomes := [];
    }

    /** `initialize(fontBuffer)`: `created(i)` says whether `new Worker` for
        index `i` succeeds, and `loads(id)` whether the worker with that id
        answers `parseFont` with `fontParsed` (an error or the timeout
        rejects its promise). A started pool only reloads its workers. */
    method Initialize(created: int -> bool, loads: int -> bool) returns (ok: bool)
      requires Valid(State())
      modifies this
      ensures State() == Init(old(State()), created, loads)
      ensures ok == InitOk(old(State()), created, loads)
      ensures Valid(State())
    {
      InitKeepsValid(State(), created, loads);
      if initialized {
        ok := AwaitLoads(workers, loads);
        return;
      }
      var ws, allLoaded := CreateWorkers(maxWorkers, created, loads);
      if allLoaded {
        workers := workers + ws;
        initialized := true;
        ok := true;
      } else {
        workers := [];
        ok := false;
      }
    }

    /** `executeTask(workerInfo, task)`. */
    method ExecuteTask(slot: nat, task: Task) returns (taskId: int)
      requires slot < |workers|
      modifies this
      ensures State() == Exec(old(State()), slot, task)
      ensures taskId == old(nextTaskId)
    {
      workers := workers[slot := workers[slot].(busy := true)];
      taskId := nextTaskId;
      nextTaskId := nextTaskId + 1;
      activeTasks := activeTasks[taskId := ActiveTask(slot, task)];
    }

    /** `processNextTask()`. */
    method ProcessNextTask()
      modifies this
      ensures State() == Next(old(State()))
    {
      if |taskQueue| == 0 {
        return;
      }
      var availableWorker := FindIdle(workers);
      if availableWorker.None? {
        return;
      }
      var task := taskQueue[0];
      taskQueue := taskQueue[1..];
      var _ := ExecuteTask(availableWorker.value, task);
    }

    /** `createSubset(codepoints, outputFormat, index, total)`. */
    method CreateSubset(codepoints: seq<int>, outputFormat: string, index: int, total: int)
      requires Valid(State())
      modifies this
      ensures State() == Submit(old(State()), Task(codepoints, outputFormat, index, total))
      ensures Valid(State())
      ensures Saturated(old(State())) ==> Saturated(State())
    {
      var task := Task(codepoints, outputFormat, index, total);
      SubmitSpec(State(), task);
      SubmitKeepsSaturated(State(), task);
      var availableWorker := FindIdle(workers);
      if availableWorker.Some? {
        var _ := ExecuteTask(availableWorker.value, task);
      } else {
        taskQueue := taskQueue + [task];
      }
    }

    /** `handleWorkerMessage(workerId, e)`; the worker id is not consulted. */
    method HandleWorkerMessage(workerId: int, reply: Reply)
      requires Valid(State())
      modifies this
      ensures State() == OnReply(old(State()), reply)
      ensures Valid(State())
      ensures Saturated(old(State())) ==> Saturated(State())
    {
      match reply {
        case SubsetCreated(Some(id), buffer) =>
          if id in activeTasks {
            ReplySpec(State(), id, reply);
            Complete(id, Resolved(activeTasks[id].task, buffer));
          }
        case Failed(Some(id), message) =>
          if id in activeTasks {
            ReplySpec(State(), id, reply);
            Complete(id, Rejected(activeTasks[id].task, TaskFailed(message)));
          }
        case _ =>
      }
    }

    /** The shared tail of both known-reply branches: settle, free the
        worker, drop the entry, drain once. */
    method Complete(id: int, outcome: Outcome)
      requires id in activeTasks
      modifies this
      ensures State() == Next(Settle(old(State()), id, outcome))
    {
      var slot := activeTasks[id].slot;
      workers := MarkIdle(workers, slot);
      activeTasks := activeTasks - {id};
      outcomes := outcomes + [outcome];
      ProcessNextTask();
    }

    /** `handleWorkerError(workerId, error)`: every active entry is visited;
        those on the crashed worker are rejected, freed and removed. */
    method HandleWorkerError(workerId: int, message: string)
      requires Valid(State())
      modifies this
      ensures State() == Crash(old(State()), workerId, message)
      ensures Valid(State())
    {
      ghost var s0 := State();
      CrashSpec(s0, workerId, message);
      var ws, tasks, settled := workers, activeTasks, outcomes;
      var pending := activeTasks.Keys;
      while pending != {}
        invariant State() == s0
        invariant pending <= s0.activeTasks.Keys
        invariant CrashProgress(s0, workerId, message, pending, s0.(workers := ws, activeTasks := tasks, outcomes := settled))
        decreases pending
      {
        var id :| id in pending;
        CrashVisit(s0, workerId, message, pending, s0.(workers := ws, activeTasks := tasks, outcomes := settled), id);
        pending := pending - {id};
        var task := tasks[id];
        if task.slot < |ws| && ws[task.slot].id == workerId {
          settled := settled + [Rejected(task.task, WorkerCrashed(workerId, CrashMessage(message)))];
          ws := MarkIdle(ws, task.slot);
          tasks := tasks - {id};
        }
      }
      CrashDone(s0, workerId, message, s0.(workers := ws, activeTasks := tasks, outcomes := settled));
      workers, activeTasks, outcomes := ws, tasks, settled;
      assert State() == s0.(workers := ws, activeTasks := tasks, outcomes := settled);
    }

    /** `terminate()`. */
    method TerminatePool()
      requires Valid(State())
      modifies this
      ensures State() == Terminate(old(State()))
      ensures Valid(State())
    {
      workers := [];
      taskQueue := [];
      activeTasks := map[];
      initialized := false;
    }
  }

  // ---------------------------------------------------------------------
  // The loop of handleWorkerError

  /** Part way through the visit: the state is the old one until the crashed
      worker's task has been visited, and the result of the crash after. */
  ghost predicate CrashProgress(s0: PoolState, w: int, message: string, pending: set<int>, s: PoolState)
  {
    && Valid(s0)
    && (forall id :: id in pending ==> id in s.activeTasks)
    && s == (if (exists id :: Names(s0, id, w)) && CrashedTask(s0, w) !in pending
             then Crash(s0, w, message) else s0)
  }

  /** The loop body of `handleWorkerError` for one active task: rejected,
      removed, and its worker idle when it ran on the crashed worker. */
  ghost function Visit(s: PoolState, id: int, w: int, message: string): PoolState
    requires id in s.activeTasks
  {
    var t := s.activeTasks[id];
    if t.slot < |s.workers| && s.workers[t.slot].id == w
    then s.(outcomes := s.outcomes + [Rejected(t.task, WorkerCrashed(w, CrashMessage(message)))],
            workers := MarkIdle(s.workers, t.slot),
            activeTasks := s.activeTasks - {id})
    else s
  }

  lemma CrashVisit(s0: PoolState, w: int, message: string, pending: set<int>, s: PoolState, id: int)
    requires id in pending && pending <= s0.activeTasks.Keys
    requires CrashProgress(s0, w, message, pending, s)
    ensures id in s.activeTasks
    ensures CrashProgress(s0, w, message, pending - {id}, Visit(s, id, w, message))
  {
    if exists k :: Names(s0, k, w) {
      if CrashedTask(s0, w) in pending {
        VisitBefore(s0, w, message, pending, id);
      } else {
        VisitAfter(s0, w, message, pending, id);
      }
    } else {
      assert !Names(s0, id, w);
    }
  }

  /** Visiting a task before the crashed worker's task has been visited. */
  lemma VisitBefore(s0: PoolState, w: int, message: string, pending: set<int>, id: int)
    requires Valid(s0) && id in pending && pending <= s0.activeTasks.Keys
    requires exists k :: Names(s0, k, w)
    requires CrashedTask(s0, w) in pending
    ensures CrashProgress(s0, w, message, pending - {id}, Visit(s0, id, w, message))
  {
    var c := CrashedTask(s0, w);
    if Names(s0, id, w) {
      CrashedTaskUnique(s0, w, id, c);
    }
  }

  /** Visiting a task after the crashed worker's task has been visited. */
  lemma VisitAfter(s0: PoolState, w: int, message: string, pending: set<int>, id: int)
    requires Valid(s0) && id in pending && pending <= s0.activeTasks.Keys
    requires exists k :: Names(s0, k, w)
    requires CrashedTask(s0, w) !in pending
    ensures id in Crash(s0, w, message).activeTasks
    ensures CrashProgress(s0, w, message, pending - {id}, Visit(Crash(s0, w, message), id, w, message))
  {
    var c := CrashedTask(s0, w);
    CrashSpec(s0, w, message);
    assert id != c;
    if Names(s0, id, w) {
      CrashedTaskUnique(s0, w, id, c);
    }
  }

  lemma CrashDone(s0: PoolState, w: int, message: string, s: PoolState)
    requires CrashProgress(s0, w, message, {}, s)
    ensures s == Crash(s0, w, message)
  {
  }
}
