/** The home screen's `HomeViewModel`: starting and pausing the timer of a
    task, deleting a task, the per-task countdown whose ticks accumulate
    the running time shown on screen, and the reconciliation of running
    tasks when the view model is created. `Date().time` becomes the
    parameter `now`; alarm and notification requests are recorded in a log
    of effects. */
module Home {
  import opened Tasks
  import opened TaskStore
  import opened Repository
  import TimeHelper

  /** `Long.MAX_VALUE`, the length of every countdown and its first
      remaining time. */
  const LongMaxValue: int := 0x7fff_ffff_ffff_ffff

  /** A request the view model hands to the alarm or notification helper. */
  datatype Effect =
    | SetTaskAlarm(taskId: int, taskName: string, remainingTimeMillis: int)
    | CancelTaskAlarm(taskId: int)
    | PostNotification(taskId: int, taskName: string, timeRunning: int)
    | DeleteNotification(taskId: int)

  /** `HomeUiState`: the tasks shown on the home screen. */
  datatype HomeUiState = HomeUiState(taskList: seq<Task> := [])

  /** What the countdown started by `updateTimer` holds: the task it was
      started for, the running time `time` it accumulates, the remaining
      time of its previous tick, and whether it was cancelled. */
  datatype CountDown = CountDown(task: Task, time: int, remainingTime: int, cancelled: bool)

  // ---------------------------------------------------------------------
  // The running time of a task and the records the view model writes

  /** The running time of a task at `now`: the stored time of a paused task,
      and for a running one the stored time plus the time since it was
      last resumed. */
  function Elapsed(task: Task, now: int): int {
    if task.paused then task.timeRunning
    else TimeHelper.ObtainActualTimeRunning(now, task.timeRunning, task.lastTimeResumed)
  }

  /** The record `startTimerTask` writes: running, resumed now. */
  function Started(task: Task, now: int): Task {
    task.(paused := false, lastTimeResumed := now)
  }

  /** The record `pauseTimerTask` writes: the time since the last resume
      folded into the running time, paused now. */
  function Paused(task: Task, now: int): Task {
    task.(
      timeRunning := TimeHelper.ObtainActualTimeRunning(now, task.timeRunning, task.lastTimeResumed),
      paused := true,
      lastTimePaused := now)
  }

  /** The record `updateTimersOnDatabase` writes for a task: a running task
      has the time since its last resume folded in and is resumed now; a
      paused task is left as it is. */
  function Reconciled(task: Task, now: int): Task {
    if task.paused then task
    else task.(
      timeRunning := TimeHelper.ObtainActualTimeRunning(now, task.timeRunning, task.lastTimeResumed),
      lastTimeResumed := now)
  }

  /** The table after `updateTimersOnDatabase` at `now`. */
  function ReconcileAll(rows: seq<Task>, now: int): (r: seq<Task>)
    ensures |r| == |rows|
  {
    seq(|rows|, i requires 0 <= i < |rows| => Reconciled(rows[i], now))
  }

  /** Starting a paused task keeps its running time, and from then on the
      running time grows with the clock. */
  lemma StartKeepsElapsed(task: Task, now: int, later: int)
    requires task.paused
    ensures Elapsed(Started(task, now), now) == Elapsed(task, now)
    ensures Elapsed(Started(task, now), later) == task.timeRunning + (later - now)
  {
  }

  /** Pausing a running task freezes its running time at what it was when
      paused; that is never less than the stored time if the task was
      resumed no later than now. */
  lemma PauseKeepsElapsed(task: Task, now: int, later: int)
    requires !task.paused
    ensures Elapsed(Paused(task, now), later) == Elapsed(task, now)
    ensures now >= task.lastTimeResumed ==> Paused(task, now).timeRunning >= task.timeRunning
  {
  }

  /** Reconciling is invisible in the running time, at any later moment. */
  lemma ReconcileInvisible(task: Task, now: int, later: int)
    ensures Elapsed(Reconciled(task, now), later) == Elapsed(task, later)
    ensures Reconciled(task, now).paused == task.paused
  {
  }

  /** A restart that reconciles at `t1` followed by a pause at `t2` stores
      the same running time as a pause at `t2` with no restart: elapsed
      time survives the process being killed and restarted. */
  lemma RestartThenPause(task: Task, t1: int, t2: int)
    requires !task.paused
    ensures Paused(Reconciled(task, t1), t2).timeRunning == Paused(task, t2).timeRunning
    ensures Paused(Reconciled(task, t1), t2) == Paused(task, t2).(lastTimeResumed := t1)
  {
    TimeHelper.ReconcileTelescopes(t1, t2, task.timeRunning, task.lastTimeResumed);
  }

  /** `updateTimersOnDatabase` keeps every row's key and paused flag,
      leaves paused rows as they were, resumes running rows at `now`, and
      keeps the running time of every row at every later moment; so it
      keeps the table ordered by key. */
  lemma {:induction false} ReconcileAllKeeps(rows: seq<Task>, now: int, later: int)
    ensures forall i :: 0 <= i < |rows| ==>
      && ReconcileAll(rows, now)[i].id == rows[i].id
      && ReconcileAll(rows, now)[i].paused == rows[i].paused
      && (rows[i].paused ==> ReconcileAll(rows, now)[i] == rows[i])
      && (!rows[i].paused ==> ReconcileAll(rows, now)[i].lastTimeResumed == now)
      && Elapsed(ReconcileAll(rows, now)[i], later) == Elapsed(rows[i], later)
    ensures SortedById(rows) ==> SortedById(ReconcileAll(rows, now))
  {
    var r := ReconcileAll(rows, now);
    forall i | 0 <= i < |rows|
      ensures Elapsed(r[i], later) == Elapsed(rows[i], later)
    {
      ReconcileInvisible(rows[i], now, later);
    }
  }

  // ---------------------------------------------------------------------
  // Alarm and notification requests

  /** The delay of the alarm `startTimerTask` sets: the time left, minus a
      millisecond so the notification never shows a negative time. */
  function AlarmDelay(task: Task): int {
    (task.duration - task.timeRunning) - 1
  }

  /** What `startTimerTask` requests: an alarm when time is left, then the
      notification of the running task. */
  function StartEffects(task: Task): seq<Effect> {
    (if task.timeRunning < task.duration then [SetTaskAlarm(task.id, task.name, AlarmDelay(task))] else [])
    + [PostNotification(task.id, task.name, task.timeRunning)]
  }

  /** What pausing or deleting a task requests: its alarm cancelled and its
      notification removed. */
  function StopEffects(id: int): seq<Effect> {
    [CancelTaskAlarm(id), DeleteNotification(id)]
  }

  /** Starting a task sets an alarm exactly when time is left, and then for
      the time left less one millisecond, which is never negative; the
      notification is always posted, last, with the stored running time. */
  lemma {:induction false} StartAlarm(task: Task)
    ensures (exists e :: e in StartEffects(task) && e.SetTaskAlarm?) <==> task.timeRunning < task.duration
    ensures forall e :: e in StartEffects(task) && e.SetTaskAlarm? ==>
      e == SetTaskAlarm(task.id, task.name, task.duration - task.timeRunning - 1) && e.remainingTimeMillis >= 0
    ensures StartEffects(task)[|StartEffects(task)| - 1] == PostNotification(task.id, task.name, task.timeRunning)
  {
    var es := StartEffects(task);
    if task.timeRunning < task.duration {
      assert es[0] in es;
    } else {
      assert es == [PostNotification(task.id, task.name, task.timeRunning)];
    }
  }

  // ---------------------------------------------------------------------
  // The countdown of `updateTimer`

  /** A countdown as `updateTimer` starts it: from the stored running time,
      with `Long.MAX_VALUE` remaining. */
  function StartCountDown(task: Task): (c: CountDown)
    ensures c.task == task && !c.cancelled && Accumulated(c)
  {
    CountDown(task, task.timeRunning, LongMaxValue, false)
  }

  /** `onTick`: the time since the previous tick is added to `time`, so
      `time + remainingTime` stays the same and an accumulated countdown
      stays accumulated. */
  function Tick(c: CountDown, millisUntilFinished: int): (r: CountDown)
    ensures r.remainingTime == millisUntilFinished && r.task == c.task && r.cancelled == c.cancelled
    ensures r.time + r.remainingTime == c.time + c.remainingTime
    ensures Accumulated(c) ==> Accumulated(r)
  {
    c.(time := c.time + (c.remainingTime - millisUntilFinished), remainingTime := millisUntilFinished)
  }

  /** A countdown after a series of ticks, the last one last. */
  function TickAll(c: CountDown, ticks: seq<int>): CountDown {
    if ticks == [] then c else Tick(TickAll(c, ticks[..|ticks| - 1]), ticks[|ticks| - 1])
  }

  /** The accumulated time of a countdown: its stored running time plus how
      far the remaining time has come down from `Long.MAX_VALUE`. */
  predicate Accumulated(c: CountDown) {
    c.time == c.task.timeRunning + (LongMaxValue - c.remainingTime)
  }

  /** Remaining times that never go up, starting from `start`. */
  predicate CountsDown(start: int, ticks: seq<int>) {
    && (forall i :: 0 <= i < |ticks| ==> ticks[i] <= start)
    && (forall i, j :: 0 <= i < j < |ticks| ==> ticks[j] <= ticks[i])
  }

  /** Ticks telescope: after any series of ticks the time has grown by how
      far the remaining time has come down, the remaining time is the last
      tick's, and the time never shrinks while the remaining time counts
      down. */
  lemma {:induction false} TicksAccumulate(c: CountDown, ticks: seq<int>)
    ensures TickAll(c, ticks).time == c.time + (c.remainingTime - TickAll(c, ticks).remainingTime)
    ensures ticks != [] ==> TickAll(c, ticks).remainingTime == ticks[|ticks| - 1]
    ensures TickAll(c, ticks).task == c.task && TickAll(c, ticks).cancelled == c.cancelled
    ensures CountsDown(c.remainingTime, ticks) ==> TickAll(c, ticks).time >= c.time
  {
    if ticks != [] {
      var front := ticks[..|ticks| - 1];
      TicksAccumulate(c, front);
      if CountsDown(c.remainingTime, ticks) {
        assert CountsDown(c.remainingTime, front);
        if front != [] {
          assert ticks[|ticks| - 1] <= front[|front| - 1];
        }
      }
    }
  }

  /** The countdown `updateTimer` starts for a task shows, after ticks
      `r1 >= … >= rk`, the task's stored time plus `Long.MAX_VALUE - rk`. */
  lemma {:induction false} CountDownShowsRunningTime(task: Task, ticks: seq<int>)
    requires ticks != []
    ensures TickAll(StartCountDown(task), ticks).time == task.timeRunning + (LongMaxValue - ticks[|ticks| - 1])
    ensures Accumulated(TickAll(StartCountDown(task), ticks))
  {
    TicksAccumulate(StartCountDown(task), ticks);
  }

  /** The countdowns `updateTimersOnDatabase` starts for the first `n`
      rows of a table: one per running row, under the row's key; a later
      row replaces an earlier one with the same key. */
  function CountDownsFor(rows: seq<Task>, n: nat): (m: map<int, CountDown>)
    requires n <= |rows|
    ensures forall id :: id in m ==> m[id].task.id == id && Accumulated(m[id]) && !m[id].cancelled
  {
    if n == 0 then map[]
    else
      var m := CountDownsFor(rows, n - 1);
      if rows[n - 1].paused then m else m[rows[n - 1].id := StartCountDown(rows[n - 1])]
  }

  /** The countdowns of the first `n` rows are exactly those of its running
      rows, each started from its row. */
  lemma {:induction false} CountDownsForKeys(rows: seq<Task>, n: nat, id: int)
    requires n <= |rows|
    ensures id in CountDownsFor(rows, n) <==> exists i :: 0 <= i < n && rows[i].id == id && !rows[i].paused
    ensures id in CountDownsFor(rows, n) ==> exists i :: 0 <= i < n && CountDownsFor(rows, n)[id] == StartCountDown(rows[i])
  {
    if n > 0 {
      CountDownsForKeys(rows, n - 1, id);
    }
  }

  /** Every countdown is stored under its task's key and has accumulated
      what its ticks brought down. */
  ghost predicate CountDownsConsistent(m: map<int, CountDown>) {
    forall id :: id in m ==> m[id].task.id == id && Accumulated(m[id])
  }

  /** The view model's countdowns after a tick of the countdown of `id`: a
      live countdown ticks, a cancelled or missing one does not. */
  function TickCountDown(m: map<int, CountDown>, id: int, millisUntilFinished: int): (r: map<int, CountDown>)
    requires CountDownsConsistent(m)
    ensures CountDownsConsistent(r) && r.Keys == m.Keys
    ensures forall other :: other in m && other != id ==> r[other] == m[other]
    ensures id in m && !m[id].cancelled ==>
      r[id].time == m[id].task.timeRunning + (LongMaxValue - millisUntilFinished)
  {
    if id in m && !m[id].cancelled then m[id := Tick(m[id], millisUntilFinished)] else m
  }

  /** The view model's countdowns after `pauseTimerTask` cancels the one of
      `id`, if there is one; a cancelled countdown stays in the map. */
  function CancelCountDown(m: map<int, CountDown>, id: int): (r: map<int, CountDown>)
    ensures r.Keys == m.Keys
    ensures forall other :: other in m ==>
      r[other] == if other == id then m[other].(cancelled := true) else m[other]
    ensures CountDownsConsistent(m) ==> CountDownsConsistent(r)
  {
    if id in m then m[id := m[id].(cancelled := true)] else m
  }

  // ---------------------------------------------------------------------
  // Running time across a history of starts, pauses and restarts

  /** What happens to a task: the user taps its play/pause button, or the
      process restarts and `updateTimersOnDatabase` runs. */
  datatype Event = Toggle(at: int) | Restart(at: int)

  /** The record stored after one event. */
  function Apply(task: Task, e: Event): Task {
    match e
    case Toggle(at) => if task.paused then Started(task, at) else Paused(task, at)
    case Restart(at) => Reconciled(task, at)
  }

  /** The record stored after a history of events, oldest first. */
  function Replay(task: Task, events: seq<Event>): Task
    decreases |events|
  {
    if events == [] then task else Replay(Apply(task, events[0]), events[1..])
  }

  /** The time a task spends running from `from` to `now`, by the wall
      clock, when the events switch it on and off; restarts do not switch. */
  function RunningTime(running: bool, from: int, events: seq<Event>, now: int): int
    decreases |events|
  {
    if events == [] then (if running then now - from else 0)
    else
      var at := events[0].at;
      (if running then at - from else 0)
      + RunningTime(if events[0].Toggle? then !running else running, at, events[1..], now)
  }

  /** Events in order of time, all between `from` and `now`. */
  predicate Chronological(from: int, events: seq<Event>, now: int) {
    && (forall i :: 0 <= i < |events| ==> from <= events[i].at <= now)
    && (forall i, j :: 0 <= i < j < |events| ==> events[i].at <= events[j].at)
  }

  /** Whatever the starts, pauses and restarts, the running time of a task
      at `now` is its running time at any earlier moment `from` plus the
      wall-clock time it spent running since then. */
  lemma {:induction false} ReplayElapsed(task: Task, from: int, events: seq<Event>, now: int)
    ensures Elapsed(Replay(task, events), now) == Elapsed(task, from) + RunningTime(!task.paused, from, events, now)
    decreases |events|
  {
    if events != [] {
      var next := Apply(task, events[0]);
      ReplayElapsed(next, events[0].at, events[1..], now);
      assert next.paused == (if events[0].Toggle? then !task.paused else task.paused);
    }
  }

  /** Time that runs forward is never negative running time, so the
      running time of a task never goes down. */
  lemma {:induction false} RunningTimeNonNegative(running: bool, from: int, events: seq<Event>, now: int)
    requires from <= now && Chronological(from, events, now)
    ensures 0 <= RunningTime(running, from, events, now) <= now - from
    decreases |events|
  {
    if events != [] {
      var at := events[0].at;
      assert Chronological(at, events[1..], now) by {
        forall i | 0 <= i < |events| - 1 ensures at <= events[1..][i].at {
          assert events[1..][i] == events[i + 1];
        }
      }
      RunningTimeNonNegative(if events[0].Toggle? then !running else running, at, events[1..], now);
    }
  }

  /** The view model, with its data source and the state it keeps: the
      running time shown per task (`timers`), the countdown per task, and
      the requests made of the alarm and notification helpers. */
  class HomeViewModel {
    const tasksRepository: TasksRepository
    var timers: map<int, int>
    var countDownTimers: map<int, CountDown>
    var effects: seq<Effect>

    ghost predicate Valid()
      reads this, tasksRepository, tasksRepository.dao
    {
      tasksRepository.Valid() && CountDownsConsistent(countDownTimers)
    }

    /** `init`: with no timers yet, the running tasks of the data source are
        reconciled at `now` and their countdowns started. */
    constructor (tasksRepository: TasksRepository, now: int)
      requires tasksRepository.Valid()
      modifies tasksRepository.dao
      ensures Valid() && this.tasksRepository == tasksRepository
      ensures tasksRepository.dao.rows == ReconcileAll(old(tasksRepository.dao.rows), now)
      ensures tasksRepository.dao.sequence == old(tasksRepository.dao.sequence)
      ensures countDownTimers == CountDownsFor(tasksRepository.dao.rows, |tasksRepository.dao.rows|)
      ensures timers == map[] && effects == []
    {
      this.tasksRepository := tasksRepository;
      timers := map[];
      countDownTimers := map[];
      effects := [];
      new;
      UpdateTimersOnDatabase(now);
      assert map[] + CountDownsFor(tasksRepository.dao.rows, |tasksRepository.dao.rows|)
        == CountDownsFor(tasksRepository.dao.rows, |tasksRepository.dao.rows|);
    }

    /** The home screen's state: every task of the data source, in key order. */
    method HomeUiStateNow() returns (s: HomeUiState)
      requires Valid()
      ensures s.taskList == tasksRepository.dao.rows && SortedById(s.taskList)
    {
      var ts := tasksRepository.GetAllTasksStream();
      s := HomeUiState(ts);
    }

    /** `startTimerTask`: a countdown started from the task, the task stored
        running from now, then an alarm and the notification requested. */
    method StartTimerTask(task: Task, now: int)
      requires Valid()
      modifies this, tasksRepository.dao
      ensures Valid() && timers == old(timers)
      ensures countDownTimers == old(countDownTimers)[task.id := StartCountDown(task)]
      ensures tasksRepository.dao.rows == UpdateRow(old(tasksRepository.dao.rows), Started(task, now))
      ensures tasksRepository.dao.sequence == old(tasksRepository.dao.sequence)
      ensures effects == old(effects) + StartEffects(task)
    {
      UpdateTimer(task);
      tasksRepository.UpdateTask(Task(
        id := task.id,
        name := task.name,
        duration := task.duration,
        timeRunning := task.timeRunning,
        paused := false,
        lastTimeResumed := now,
        lastTimePaused := task.lastTimePaused));
      if task.timeRunning < task.duration {
        effects := effects + [SetTaskAlarm(task.id, task.name, (task.duration - task.timeRunning) - 1)];
      }
      effects := effects + [PostNotification(task.id, task.name, task.timeRunning)];
    }

    /** `pauseTimerTask`: the task's countdown cancelled, the task stored
        paused now with the running time folded in, then its alarm and
        notification removed. */
    method PauseTimerTask(task: Task, now: int)
      requires Valid()
      modifies this, tasksRepository.dao
      ensures Valid() && timers == old(timers)
      ensures countDownTimers == CancelCountDown(old(countDownTimers), task.id)
      ensures tasksRepository.dao.rows == UpdateRow(old(tasksRepository.dao.rows), Paused(task, now))
      ensures tasksRepository.dao.sequence == old(tasksRepository.dao.sequence)
      ensures effects == old(effects) + StopEffects(task.id)
    {
      countDownTimers := CancelCountDown(countDownTimers, task.id);
      var actualTimeRunning := TimeHelper.ObtainActualTimeRunning(now, task.timeRunning, task.lastTimeResumed);
      var pausedTask := Task(
        id := task.id,
        name := task.name,
        duration := task.duration,
        timeRunning := actualTimeRunning,
        paused := true,
        lastTimeResumed := task.lastTimeResumed,
        lastTimePaused := now);
      assert pausedTask == Paused(task, now);
      tasksRepository.UpdateTask(pausedTask);
      effects := effects + [CancelTaskAlarm(task.id)];
      effects := effects + [DeleteNotification(task.id)];
    }

    /** `deleteTask`: the task's row removed, its alarm and notification
        removed; its countdown, if any, is left as it is. */
    method DeleteTask(task: Task)
      requires Valid()
      modifies this, tasksRepository.dao
      ensures Valid() && timers == old(timers) && countDownTimers == old(countDownTimers)
      ensures tasksRepository.dao.rows == DeleteRow(old(tasksRepository.dao.rows), task)
      ensures tasksRepository.GetTaskStream(task.id) == None
      ensures tasksRepository.dao.sequence == old(tasksRepository.dao.sequence)
      ensures effects == old(effects) + StopEffects(task.id)
    {
      tasksRepository.DeleteTask(task);
      effects := effects + [CancelTaskAlarm(task.id)];
      effects := effects + [DeleteNotification(task.id)];
    }

    /** `updateTimer`: a countdown for the task, under its key, replacing
        the one stored there. */
    method UpdateTimer(task: Task)
      requires CountDownsConsistent(countDownTimers)
      modifies this
      ensures CountDownsConsistent(countDownTimers)
      ensures countDownTimers == old(countDownTimers)[task.id := StartCountDown(task)]
      ensures timers == old(timers) && effects == old(effects)
    {
      var time := task.timeRunning;
      var remainingTime := LongMaxValue;
      countDownTimers := countDownTimers[task.id := CountDown(task, time, remainingTime, false)];
    }

    /** `onTick` of the countdown of `id`: the time since the previous tick
        added to the countdown's time, which becomes the running time shown
        for `id`; no other entry changes. A cancelled countdown does not
        tick. */
    method OnTick(id: int, millisUntilFinished: int)
      requires Valid()
      modifies this
      ensures Valid() && effects == old(effects)
      ensures countDownTimers == TickCountDown(old(countDownTimers), id, millisUntilFinished)
      ensures id in old(countDownTimers) && !old(countDownTimers)[id].cancelled ==>
        timers == old(timers)[id := old(countDownTimers)[id].task.timeRunning + (LongMaxValue - millisUntilFinished)]
      ensures !(id in old(countDownTimers) && !old(countDownTimers)[id].cancelled) ==> timers == old(timers)
    {
      if id in countDownTimers && !countDownTimers[id].cancelled {
        var c := countDownTimers[id];
        var time := c.time + (c.remainingTime - millisUntilFinished);
        timers := timers[id := time];
        countDownTimers := countDownTimers[id := c.(time := time, remainingTime := millisUntilFinished)];
      }
    }

    /** `onFinish` of the countdown of `id`: the task it was started for is
        paused. */
    method OnFinish(id: int, now: int)
      requires Valid()
      modifies this, tasksRepository.dao
      ensures Valid() && timers == old(timers)
      ensures tasksRepository.dao.sequence == old(tasksRepository.dao.sequence)
      ensures id in old(countDownTimers) && !old(countDownTimers)[id].cancelled ==>
        && tasksRepository.dao.rows == UpdateRow(old(tasksRepository.dao.rows), Paused(old(countDownTimers)[id].task, now))
        && effects == old(effects) + StopEffects(id)
        && countDownTimers == CancelCountDown(old(countDownTimers), id)
      ensures !(id in old(countDownTimers) && !old(countDownTimers)[id].cancelled) ==>
        && tasksRepository.dao.rows == old(tasksRepository.dao.rows)
        && effects == old(effects) && countDownTimers == old(countDownTimers)
    {
      if id in countDownTimers && !countDownTimers[id].cancelled {
        PauseTimerTask(countDownTimers[id].task, now);
      }
    }

    /** `updateTimersOnDatabase`: every running task of the data source is
        stored reconciled at `now` and gets a countdown from the reconciled
        record; paused tasks are untouched. */
    method UpdateTimersOnDatabase(now: int)
      requires Valid()
      modifies this, tasksRepository.dao
      ensures Valid() && timers == old(timers) && effects == old(effects)
      ensures tasksRepository.dao.rows == ReconcileAll(old(tasksRepository.dao.rows), now)
      ensures tasksRepository.dao.sequence == old(tasksRepository.dao.sequence)
      ensures countDownTimers == old(countDownTimers) + CountDownsFor(tasksRepository.dao.rows, |tasksRepository.dao.rows|)
    {
      var taskList := tasksRepository.GetAllTasksStream();
      ghost var started := countDownTimers;
      var i := 0;
      while i < |taskList|
        invariant 0 <= i <= |taskList|
        invariant Valid()
        invariant timers == old(timers) && effects == old(effects)
        invariant ReconciledUpTo(tasksRepository.dao.rows, taskList, now, i)
        invariant tasksRepository.dao.sequence == old(tasksRepository.dao.sequence)
        invariant countDownTimers == started + CountDownsFor(ReconcileAll(taskList, now), i)
      {
        ReconcileNext(taskList, now, i, started);
        i := i + 1;
      }
      ReconciledAll(taskList, now, tasksRepository.dao.rows);
    }

    /** One pass of the loop of `updateTimersOnDatabase`: the `i`-th task is
        reconciled, which extends the reconciled prefix of the table and the
        countdowns started by one task. */
    method ReconcileNext(taskList: seq<Task>, now: int, i: int, ghost started: map<int, CountDown>)
      requires Valid() && SortedById(taskList) && 0 <= i < |taskList|
      requires ReconciledUpTo(tasksRepository.dao.rows, taskList, now, i)
      requires countDownTimers == started + CountDownsFor(ReconcileAll(taskList, now), i)
      modifies this, tasksRepository.dao
      ensures Valid() && timers == old(timers) && effects == old(effects)
      ensures tasksRepository.dao.sequence == old(tasksRepository.dao.sequence)
      ensures ReconciledUpTo(tasksRepository.dao.rows, taskList, now, i + 1)
      ensures countDownTimers == started + CountDownsFor(ReconcileAll(taskList, now), i + 1)
    {
      ghost var before := tasksRepository.dao.rows;
      ghost var countDownsBefore := countDownTimers;
      ReconcileTask(taskList[i], now);
      LoopStep(taskList, now, i, before, tasksRepository.dao.rows, started, countDownsBefore, countDownTimers);
    }

    /** The body of the loop of `updateTimersOnDatabase`: a running task is
        stored reconciled at `now` and a countdown is started from the
        reconciled record; a paused task is skipped. */
    method ReconcileTask(task: Task, now: int)
      requires Valid()
      modifies this, tasksRepository.dao
      ensures Valid() && timers == old(timers) && effects == old(effects)
      ensures tasksRepository.dao.sequence == old(tasksRepository.dao.sequence)
      ensures task.paused ==> tasksRepository.dao.rows == old(tasksRepository.dao.rows) && countDownTimers == old(countDownTimers)
      ensures !task.paused ==>
        && tasksRepository.dao.rows == UpdateRow(old(tasksRepository.dao.rows), Reconciled(task, now))
        && countDownTimers == old(countDownTimers)[task.id := StartCountDown(Reconciled(task, now))]
    {
      if !task.paused {
        var actualTime := TimeHelper.ObtainActualTimeRunning(now, task.timeRunning, task.lastTimeResumed);
        var updateTask := Task(
          id := task.id,
          name := task.name,
          duration := task.duration,
          timeRunning := actualTime,
          paused := false,
          lastTimeResumed := now,
          lastTimePaused := task.lastTimePaused);
        assert updateTask == Reconciled(task, now);
        tasksRepository.UpdateTask(updateTask);
        UpdateTimer(updateTask);
      }
    }
  }

  /** The first `i` rows of `rows` are those of `taskList` reconciled at
      `now`, the others those of `taskList` as they were. */
  ghost predicate ReconciledUpTo(rows: seq<Task>, taskList: seq<Task>, now: int, i: int) {
    && |rows| == |taskList|
    && forall k :: 0 <= k < |rows| ==> rows[k] == if k < i then Reconciled(taskList[k], now) else taskList[k]
  }

  /** One step of the loop of `updateTimersOnDatabase` on the table: in a
      table whose first `i` rows are already reconciled, updating the row
      of the `i`-th task to its reconciled record (or leaving a paused one)
      reconciles the first `i + 1`. */
  lemma ReconcileStep(taskList: seq<Task>, now: int, i: int, before: seq<Task>, after: seq<Task>)
    requires SortedById(taskList) && 0 <= i < |taskList|
    requires ReconciledUpTo(before, taskList, now, i)
    requires after == if taskList[i].paused then before else UpdateRow(before, Reconciled(taskList[i], now))
    ensures ReconciledUpTo(after, taskList, now, i + 1)
  {
    if !taskList[i].paused {
      var d := Reconciled(taskList[i], now);
      forall k | 0 <= k < |before| && k != i ensures before[k].id != d.id {
        if k < i {
          assert before[k].id == taskList[k].id < taskList[i].id;
        } else {
          assert before[k] == taskList[k];
        }
      }
      UpdateRowAt(before, i, d);
    }
  }

  /** One pass of the loop of `updateTimersOnDatabase`, on the table and on
      the countdowns together. */
  lemma LoopStep(taskList: seq<Task>, now: int, i: int, before: seq<Task>, after: seq<Task>,
                 started: map<int, CountDown>, countDownsBefore: map<int, CountDown>, countDownsAfter: map<int, CountDown>)
    requires SortedById(taskList) && 0 <= i < |taskList|
    requires ReconciledUpTo(before, taskList, now, i)
    requires countDownsBefore == started + CountDownsFor(ReconcileAll(taskList, now), i)
    requires taskList[i].paused ==> after == before && countDownsAfter == countDownsBefore
    requires !taskList[i].paused ==>
      && after == UpdateRow(before, Reconciled(taskList[i], now))
      && countDownsAfter == countDownsBefore[taskList[i].id := StartCountDown(Reconciled(taskList[i], now))]
    ensures ReconciledUpTo(after, taskList, now, i + 1)
    ensures countDownsAfter == started + CountDownsFor(ReconcileAll(taskList, now), i + 1)
  {
    ReconcileStep(taskList, now, i, before, after);
    CountDownsStep(started, ReconcileAll(taskList, now), i);
  }

  /** A table reconciled up to its end is `ReconcileAll` of the original. */
  lemma ReconciledAll(taskList: seq<Task>, now: int, rows: seq<Task>)
    requires ReconciledUpTo(rows, taskList, now, |taskList|)
    ensures rows == ReconcileAll(taskList, now)
  {
  }

  /** Updating a row whose key no other row has replaces just that row. */
  lemma UpdateRowAt(rows: seq<Task>, i: int, task: Task)
    requires 0 <= i < |rows| && rows[i].id == task.id
    requires forall k :: 0 <= k < |rows| && k != i ==> rows[k].id != task.id
    ensures UpdateRow(rows, task) == rows[i := task]
  {
    var r := UpdateRow(rows, task);
    assert forall k :: 0 <= k < |rows| ==> r[k] == rows[i := task][k];
  }

  /** One step of the loop of `updateTimersOnDatabase` on the countdowns:
      a running `i`-th row adds its countdown, a paused one adds none. */
  lemma CountDownsStep(m: map<int, CountDown>, done: seq<Task>, i: int)
    requires 0 <= i < |done|
    ensures done[i].paused ==> m + CountDownsFor(done, i + 1) == m + CountDownsFor(done, i)
    ensures !done[i].paused ==>
      m + CountDownsFor(done, i + 1) == (m + CountDownsFor(done, i))[done[i].id := StartCountDown(done[i])]
  {
  }

}
