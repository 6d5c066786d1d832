/** The background-task registry: tasks keyed by id, each moving from
    PENDING to RUNNING to COMPLETED, FAILED or ABORTED, a heartbeat monitor
    that fails running tasks whose heartbeat is stale, and the clean-up of
    old finished tasks. Threads are not modelled: the caller runs the steps
    of a task (`BeginRun`, progress updates, `EndRun`) and the monitor's
    check in any order it likes. Time is an integer number of seconds. */
module BackgroundTasks {
  import opened Common

  datatype TaskStatus = Pending | Running | Completed | Failed | Aborted

  predicate IsFinished(s: TaskStatus)
  {
    s == Completed || s == Failed || s == Aborted
  }

  /** What the task's function did: returned a value, or raised. */
  datatype Outcome = Returned(value: string) | Raised(message: string)

  /** A task's fields as values. */
  datatype TaskState = TaskState(
    taskId: string,
    taskType: string,
    status: TaskStatus,
    startedAt: Option<int>,
    completedAt: Option<int>,
    lastHeartbeat: Option<int>,
    error: Option<string>,
    result: Option<string>,
    progress: int,
    shouldAbort: bool)

  /** The seconds without a heartbeat after which the monitor gives up on a
      running task. */
  const HeartbeatTimeout: int := 120

  const HeartbeatTimeoutMessage: string := "Task heartbeat timeout"
  const AbortedMessage: string := "Task aborted"

  /** A task as submitted: PENDING, no times, no progress. */
  function NewTask(taskId: string, taskType: string): TaskState
  {
    TaskState(taskId, taskType, Pending, None, None, None, None, None, 0, false)
  }

  /** The progress as stored: the request clamped into 0..100. */
  function Clamp(progress: int): (r: int)
    ensures 0 <= r <= 100
    ensures 0 <= progress <= 100 ==> r == progress
    ensures progress < 0 ==> r == 0
    ensures progress > 100 ==> r == 100
  {
    if progress < 0 then 0 else if progress > 100 then 100 else progress
  }

  /** A heartbeat seen strictly less than `timeout` seconds ago. */
  predicate Alive(lastHeartbeat: Option<int>, timeout: int, now: int)
  {
    lastHeartbeat.Some? && now - lastHeartbeat.value < timeout
  }

  /** The monitor's check of one task: it only ever fails a running task
      whose heartbeat is stale, and changes nothing else. */
  function HeartbeatChecked(s: TaskState, now: int): (r: TaskState)
    ensures r != s <==> s.status == Running && !Alive(s.lastHeartbeat, HeartbeatTimeout, now)
    ensures r.status != s.status ==> s.status == Running && r.status == Failed
    ensures r.(status := s.status, error := s.error, completedAt := s.completedAt) == s
  {
    if s.status == Running && !Alive(s.lastHeartbeat, HeartbeatTimeout, now) then
      s.(status := Failed, error := Some(HeartbeatTimeoutMessage), completedAt := Some(now))
    else s
  }

  /** The start of a run: the task is RUNNING with a fresh heartbeat, so
      the monitor leaves it alone at that moment. */
  function Begun(s: TaskState, now: int): (r: TaskState)
    ensures r.status == Running && r.startedAt == Some(now)
    ensures HeartbeatChecked(r, now) == r
    ensures r.(status := s.status, startedAt := s.startedAt, lastHeartbeat := s.lastHeartbeat) == s
  {
    s.(status := Running, startedAt := Some(now), lastHeartbeat := Some(now))
  }

  /** The end of a run, once the task's function has returned or raised:
      it always finishes the task, ABORTED exactly when an abort was
      requested and the function returned, FAILED exactly when it raised. */
  function Ended(s: TaskState, outcome: Outcome, now: int): (r: TaskState)
    ensures IsFinished(r.status) && r.completedAt == Some(now)
    ensures r.status == Aborted <==> outcome.Returned? && s.shouldAbort
    ensures r.status == Failed <==> outcome.Raised?
    ensures r.status == Completed ==> r.result == Some(outcome.value)
  {
    var s' := match outcome
      case Raised(message) => s.(status := Failed, error := Some(message))
      case Returned(value) =>
        if s.shouldAbort then s.(status := Aborted, error := Some(AbortedMessage))
        else s.(status := Completed, result := Some(value));
    s'.(completedAt := Some(now), lastHeartbeat := Some(now))
  }

  /** A finished task completed before the cut-off, which clean-up removes;
      a pending or running task is never stale. */
  predicate Stale(s: TaskState, cutoff: int)
    ensures s.status == Pending || s.status == Running ==> !Stale(s, cutoff)
  {
    s.completedAt.Some? && s.completedAt.value < cutoff && IsFinished(s.status)
  }

  /** The registry after clean-up: exactly the stale tasks are removed and
      every other task is left as it was; in particular no pending or
      running task is removed. */
  function Cleaned(reg: map<string, TaskState>, cutoff: int): (r: map<string, TaskState>)
    ensures r.Keys <= reg.Keys
    ensures forall k :: k in reg ==> (k in r <==> !Stale(reg[k], cutoff))
    ensures forall k :: k in r ==> r[k] == reg[k]
    ensures forall k :: k in reg && !IsFinished(reg[k].status) ==> k in r
  {
    map k | k in reg && !Stale(reg[k], cutoff) :: reg[k]
  }

  /** What a task's fields always satisfy: progress within 0..100, a
      pending task has not started or ended, a running task has started,
      has a heartbeat and has not ended, and a finished task has ended. */
  predicate WellFormed(s: TaskState)
  {
    && 0 <= s.progress <= 100
    && (s.status == Pending ==> s.startedAt.None? && s.completedAt.None?)
    && (s.status == Running ==> s.startedAt.Some? && s.lastHeartbeat.Some? && s.completedAt.None?)
    && (IsFinished(s.status) ==> s.completedAt.Some?)
    && (s.status == Aborted ==> s.error == Some(AbortedMessage))
  }

  /** Every step keeps a task well formed, given that a run only begins on
      a pending task. */
  lemma StepsKeepWellFormed(s: TaskState, now: int, outcome: Outcome, progress: int)
    requires WellFormed(s)
    ensures WellFormed(NewTask(s.taskId, s.taskType))
    ensures s.status == Pending ==> WellFormed(Begun(s, now))
    ensures WellFormed(Ended(s, outcome, now))
    ensures WellFormed(HeartbeatChecked(s, now))
    ensures WellFormed(s.(progress := Clamp(progress), lastHeartbeat := Some(now)))
    ensures WellFormed(s.(shouldAbort := true))
  {
  }

  /** The end of a run does not look at what the monitor did: a task the
      monitor failed for a stale heartbeat still ends COMPLETED when its
      function returns, keeping the timeout message as its error. */
  lemma EndOverwritesTimeout(s: TaskState, timedOutAt: int, value: string, now: int)
    requires s.status == Running && !s.shouldAbort
    requires !Alive(s.lastHeartbeat, HeartbeatTimeout, timedOutAt)
    ensures HeartbeatChecked(s, timedOutAt).status == Failed
    ensures var e := Ended(HeartbeatChecked(s, timedOutAt), Returned(value), now);
      e.status == Completed && e.result == Some(value) && e.error == Some(HeartbeatTimeoutMessage)
      && e.completedAt == Some(now)
  {
  }

  /** A task object; its methods update its own fields. */
  class BackgroundTask {
    const taskId: string
    const taskType: string
    var status: TaskStatus
    var startedAt: Option<int>
    var completedAt: Option<int>
    var lastHeartbeat: Option<int>
    var error: Option<string>
    var result: Option<string>
    var progress: int
    var shouldAbort: bool

    function State(): TaskState
      reads this
    {
      TaskState(taskId, taskType, status, startedAt, completedAt, lastHeartbeat, error, result, progress, shouldAbort)
    }

    constructor (taskId: string, taskType: string)
      ensures State() == NewTask(taskId, taskType)
    {
      this.taskId := taskId;
      this.taskType := taskType;
      status := Pending;
      startedAt := None;
      completedAt := None;
      lastHeartbeat := None;
      error := None;
      result := None;
      progress := 0;
      shouldAbort := false;
    }

    /** `update_heartbeat`. */
    method UpdateHeartbeat(now: int)
      modifies this
      ensures State() == old(State()).(lastHeartbeat := Some(now))
    {
      lastHeartbeat := Some(now);
    }

    /** `update_progress`: the clamped progress, and a heartbeat. */
    method UpdateProgress(progress: int, now: int)
      modifies this
      ensures State() == old(State()).(progress := Clamp(progress), lastHeartbeat := Some(now))
    {
      this.progress := if progress < 0 then 0 else if progress > 100 then 100 else progress;
      UpdateHeartbeat(now);
    }

    /** `is_alive`: a heartbeat less than `timeoutSeconds` old. */
    function IsAlive(timeoutSeconds: int, now: int): (r: bool)
      reads this
      ensures r <==> lastHeartbeat.Some? && lastHeartbeat.value > now - timeoutSeconds
    {
      if lastHeartbeat.None? then false else now - lastHeartbeat.value < timeoutSeconds
    }
  }

  /** The registry. */
  class BackgroundTaskManager {
    var tasks: map<string, BackgroundTask>

    /** No task object is registered under two ids. */
    ghost predicate Valid()
      reads this
    {
      forall a, b :: a in tasks && b in tasks && a != b ==> tasks[a] != tasks[b]
    }

    constructor ()
      ensures Valid() && tasks == map[]
    {
      tasks := map[];
    }

    /** `_check_heartbeats`: fail every running task whose heartbeat is
        stale; nothing else changes. */
    method CheckHeartbeats(now: int)
      requires Valid()
      modifies tasks.Values
      ensures tasks == old(tasks)
      ensures forall k :: k in tasks ==> tasks[k].State() == HeartbeatChecked(old(tasks[k].State()), now)
    {
      var rest := tasks.Keys;
      while rest != {}
        invariant rest <= tasks.Keys
        invariant forall k :: k in tasks ==>
                    tasks[k].State() == (if k in rest then old(tasks[k].State()) else HeartbeatChecked(old(tasks[k].State()), now))
        decreases rest
      {
        var k :| k in rest;
        CheckOne(tasks[k], now);
        rest := rest - {k};
      }
    }

    /** The monitor's check of one task: a running task with a stale
        heartbeat fails. */
    static method CheckOne(task: BackgroundTask, now: int)
      modifies task
      ensures task.State() == HeartbeatChecked(old(task.State()), now)
    {
      if task.status == Running && !task.IsAlive(HeartbeatTimeout, now) {
        task.status := Failed;
        task.error := Some(HeartbeatTimeoutMessage);
        task.completedAt := Some(now);
      }
    }

    /** `submit_task`: refused while a task with the same id is running;
        otherwise a fresh PENDING task replaces whatever was registered
        under the id. */
    method SubmitTask(taskId: string, taskType: string) returns (task: BackgroundTask?, error: Option<string>)
      requires Valid()
      modifies this
      ensures Valid()
      ensures var refused := taskId in old(tasks) && old(tasks[taskId].status) == Running;
        && (refused <==> task == null)
        && (refused ==> tasks == old(tasks) && error == Some("Task " + taskId + " is already running"))
        && (!refused ==> task != null && fresh(task) && task.State() == NewTask(taskId, taskType)
                         && tasks == old(tasks)[taskId := task] && error == None)
    {
      if taskId in tasks && tasks[taskId].status == Running {
        return null, Some("Task " + taskId + " is already running");
      }
      task := new BackgroundTask(taskId, taskType);
      tasks := tasks[taskId := task];
      error := None;
    }

    /** The first part of `_run_task`, before the task's function runs. */
    method BeginRun(task: BackgroundTask, now: int)
      requires task.status == Pending
      modifies task
      ensures task.State() == Begun(old(task.State()), now)
    {
      task.status := Running;
      task.startedAt := Some(now);
      task.UpdateHeartbeat(now);
    }

    /** The rest of `_run_task`, once the task's function has returned or
        raised: ABORTED if an abort was requested, COMPLETED with the value
        otherwise, FAILED if it raised; the end time and a heartbeat always. */
    method EndRun(task: BackgroundTask, outcome: Outcome, now: int)
      modifies task
      ensures task.State() == Ended(old(task.State()), outcome, now)
    {
      match outcome {
        case Raised(message) =>
          task.status := Failed;
          task.error := Some(message);
        case Returned(value) =>
          if task.shouldAbort {
            task.status := Aborted;
            task.error := Some(AbortedMessage);
          } else {
            task.status := Completed;
            task.result := Some(value);
          }
      }
      task.completedAt := Some(now);
      task.UpdateHeartbeat(now);
    }

    /** `get_task`. */
    function GetTask(taskId: string): (r: Option<BackgroundTask>)
      reads this
      ensures r.Some? <==> taskId in tasks
      ensures r.Some? ==> r.value == tasks[taskId]
    {
      if taskId in tasks then Some(tasks[taskId]) else None
    }

    /** `abort_task`: only a registered running task takes the request. */
    method AbortTask(taskId: string) returns (ok: bool)
      modifies tasks.Values
      ensures ok <==> taskId in tasks && old(tasks[taskId].status) == Running
      ensures ok ==> tasks[taskId].State() == old(tasks[taskId].State()).(shouldAbort := true)
      ensures forall t :: t in tasks.Values && (!ok || t != tasks[taskId]) ==> t.State() == old(t.State())
    {
      if taskId in tasks && tasks[taskId].status == Running {
        tasks[taskId].shouldAbort := true;
        return true;
      }
      return false;
    }

    /** `get_active_tasks`: the running tasks. */
    function ActiveTasks(): (r: set<BackgroundTask>)
      reads this, tasks.Values
      ensures r <= tasks.Values
      ensures forall t :: t in tasks.Values ==> (t in r <==> t.status == Running)
    {
      RunningOf(tasks)
    }

    /** The ids `cleanup_old_tasks` collects before deleting anything. */
    method StaleIds(cutoff: int) returns (ids: set<string>)
      ensures ids <= tasks.Keys
      ensures forall k :: k in tasks ==> (k in ids <==> Stale(tasks[k].State(), cutoff))
    {
      ids := {};
      var rest := tasks.Keys;
      while rest != {}
        invariant rest <= tasks.Keys && ids <= tasks.Keys
        invariant forall k :: k in tasks && k !in rest ==> (k in ids <==> Stale(tasks[k].State(), cutoff))
        invariant forall k :: k in ids ==> k !in rest
        decreases rest
      {
        var k :| k in rest;
        var task := tasks[k];
        if task.completedAt.Some? && task.completedAt.value < cutoff {
          if task.status == Completed || task.status == Failed || task.status == Aborted {
            ids := ids + {k};
          }
        }
        rest := rest - {k};
      }
    }

    /** `cleanup_old_tasks`: remove the finished tasks that completed more
        than `maxAgeHours` hours ago. */
    method CleanupOldTasks(maxAgeHours: int, now: int)
      requires Valid()
      modifies this
      ensures Valid()
      ensures tasks.Keys <= old(tasks.Keys) && forall k :: k in tasks ==> tasks[k] == old(tasks[k])
      ensures forall k :: k in old(tasks) ==>
                (k in tasks <==> !Stale(old(tasks[k].State()), now - maxAgeHours * 3600))
    {
      var cutoff := now - maxAgeHours * 3600;
      var toRemove := StaleIds(cutoff);
      RemoveAll(toRemove);
    }

    /** The deletion loop of `cleanup_old_tasks`. */
    method RemoveAll(ids: set<string>)
      modifies this
      ensures tasks == old(tasks) - ids
    {
      var toRemove := ids;
      while toRemove != {}
        invariant tasks == old(tasks) - (ids - toRemove)
        decreases toRemove
      {
        var k :| k in toRemove;
        tasks := tasks - {k};
        toRemove := toRemove - {k};
      }
    }
  }

  /** The states of the registered tasks. */
  ghost function StatesOf(m: map<string, BackgroundTask>): map<string, TaskState>
    reads m.Values
  {
    map k | k in m :: m[k].State()
  }

  /** The running tasks among the registered ones. */
  function RunningOf(m: map<string, BackgroundTask>): set<BackgroundTask>
    reads m.Values
  {
    set t | t in m.Values && t.status == Running
  }

  /** Removing exactly the stale ids of a registry whose objects are
      distinct leaves the cleaned registry and every running task. */
  lemma RemovingStale(m: map<string, BackgroundTask>, ids: set<string>, cutoff: int)
    requires forall a, b :: a in m && b in m && a != b ==> m[a] != m[b]
    requires ids <= m.Keys && forall k :: k in m ==> (k in ids <==> Stale(m[k].State(), cutoff))
    ensures StatesOf(m - ids) == Cleaned(StatesOf(m), cutoff)
    ensures RunningOf(m - ids) == RunningOf(m)
  {
    forall t | t in m.Values && t.status == Running
      ensures t in (m - ids).Values
    {
      var k :| k in m && m[k] == t;
      assert (m - ids)[k] == t;
    }
  }
}
