# TaskCronometer core in Dafny

TaskCronometer is an Android app that keeps a list of tasks. Each task has a
planned duration and a chronometer that the user starts and pauses. This
project models and proves the part of the app that keeps running time right:

- **Time conversions.** The `TimeHelper` object and its older copy
  `ParseTimeLeft` turn hours, minutes and seconds into milliseconds. They
  render milliseconds as `HH:MM` and `HH:MM:SS`. They also compute the running
  time of a task that has been running since its last resume.
- **The task record.** `Task` is the row of the `tasks` table, with its
  defaults.
- **The table.** The Room `TaskDao` and the `TasksRepository` that forwards to
  it.
- **The entry form.** `TaskEntryViewModel` holds the form state, validates it
  and saves a valid task.
- **The home screen.** `HomeViewModel` starts and pauses task timers, deletes
  tasks, and accumulates the time shown on screen from the ticks of a
  per-task countdown. When it is created, it reconciles the tasks that were
  left running.

Modules, one per source file plus two for the language's arithmetic and text:

| module | file | models |
|---|---|---|
| `KotlinInt` | `kotlin_int.dfy` | Kotlin `/` and `%` (round toward zero); 32-bit `Int` wrap-around |
| `Decimal` | `decimal.dfy` | `"%02d"` formatting and a decimal reader to state round trips |
| `TimeHelper` | `time_helper.dfy` | `utilities/TimeHelper.kt` |
| `ParseTimeLeft` | `parse_time_left.dfy` | `data/ParseTimeLeft.kt` |
| `Tasks` | `task.dfy` | `data/Task.kt` |
| `TaskStore` | `task_store.dfy` | `data/TaskDao.kt`: the table as a key-ordered sequence and the class `TaskDao` |
| `Repository` | `tasks_repository.dfy` | `data/TasksRepository.kt`: the class `TasksRepository` over a `TaskDao` |
| `TaskEntry` | `task_entry.dfy` | `ui/task/TaskEntryViewModel.kt` |
| `Home` | `home.dfy` | `ui/home/HomeViewModel.kt` |

Conventions:

- Kotlin `Long` is an unbounded `int`. In the time conversions, the `Int`
  parameters are `Int32`. Each `Int` arithmetic result and each `toInt()` is
  wrapped with `Wrap32`. Task ids are unbounded `int`s (see "## Left out").
- `Date().time` is a parameter `now`.
- Each alarm and notification request is an `Effect` appended to the view
  model's `effects` log.
- A `CountDownTimer` is a `CountDown` value. It holds the task it was started
  for, the variables `time` and `remainingTime` that its `onTick` closure
  updates, and whether it was cancelled.
- Coroutines run to completion, in the order they are launched.

The central property is that running time is preserved across starts, pauses
and process restarts. `Home.ReplayElapsed` proves it for any history of taps
and restarts. At any moment, the running time equals the running time at any
earlier moment plus the wall-clock time the task spent running in between.
`Home.RunningTimeNonNegative` proves that this added time is never negative
and never more than the time that has passed.

Paths below are relative to the repository root.

## Model

| member | source | states |
|---|---|---|
| KotlinInt.Quot | app/src/main/java/com/example/taskcronometer/utilities/TimeHelper.kt:15-16 | Division rounds toward zero. The remainder after the quotient is in [0, b) for a non-negative dividend and in (-b, 0] for a negative one. |
| KotlinInt.Rem | app/src/main/java/com/example/taskcronometer/utilities/TimeHelper.kt:16 | `%` is what is left after the truncated quotient. It takes the sign of the dividend and is smaller than the divisor in size. |
| KotlinInt.QuotRemNonNegative | app/src/main/java/com/example/taskcronometer/utilities/TimeHelper.kt:15-16 | For a non-negative dividend, Kotlin's `/` and `%` agree with floored division. |
| KotlinInt.Wrap32 | app/src/main/java/com/example/taskcronometer/utilities/TimeHelper.kt:11 | An `Int` result is the unique 32-bit value congruent to the exact result modulo 2^32. |
| KotlinInt.Wrap32Congruent | app/src/main/java/com/example/taskcronometer/utilities/TimeHelper.kt:11 | Values congruent modulo 2^32 wrap to the same `Int`. |
| KotlinInt.Wrap32Small | app/src/main/java/com/example/taskcronometer/utilities/TimeHelper.kt:34 | A value in `Int` range is unchanged by `toInt()`. |
| KotlinInt.Wrap32Sum3 | app/src/main/java/com/example/taskcronometer/utilities/TimeHelper.kt:11 | Wrapping after each `Int` addition gives the same result as wrapping the exact total once. |
| Decimal.Digits | app/src/main/java/com/example/taskcronometer/utilities/TimeHelper.kt:17 | The decimal digits of a natural number, with no leading zero except for 0 itself. There is one digit below 10 and two from 10 to 99. |
| Decimal.ParseDigits | app/src/main/java/com/example/taskcronometer/utilities/TimeHelper.kt:17 | Reading back the digits of n gives n. |
| Decimal.Pad2 | app/src/main/java/com/example/taskcronometer/utilities/TimeHelper.kt:17 | `%02d` produces at least two characters. A non-negative value gives digits that read back as the value. A negative value gives "-" followed by digits that read back as its magnitude. The text is exactly two characters iff -10 < n < 100. There is no padding zero beyond width two: from 10 up, the first character is not '0', and below -9 the first digit is not '0'. |
| TimeHelper.ToMilliSeconds | app/src/main/java/com/example/taskcronometer/utilities/TimeHelper.kt:10-12 | The `Int` sum of hours, minutes and seconds wraps once at 32 bits, and is then scaled by 1000 as a `Long`. |
| TimeHelper.ToMilliSecondsExact | app/src/main/java/com/example/taskcronometer/utilities/TimeHelper.kt:10-12 | If the sum fits in an `Int`, `toMilliSeconds` is the exact conversion. |
| TimeHelper.MinutesField | app/src/main/java/com/example/taskcronometer/utilities/TimeHelper.kt:16 | The minutes field lies in -59..59, and is non-negative for a non-negative duration. |
| TimeHelper.SecondsField | app/src/main/java/com/example/taskcronometer/utilities/TimeHelper.kt:23 | The seconds field lies in -59..59, and is non-negative for a non-negative duration. |
| TimeHelper.ToHHMM | app/src/main/java/com/example/taskcronometer/utilities/TimeHelper.kt:14-18 | For every non-negative duration, however many hours: the whole hours in digits, a colon, and the minutes past the hour in two digits. The shape below 100 hours and the dropped sub-second part are stated by `ClockShape` and `SubSecondIgnored`. |
| TimeHelper.ToHHMMSS | app/src/main/java/com/example/taskcronometer/utilities/TimeHelper.kt:20-25 | For every non-negative duration: the whole hours, then the minutes past the hour and the seconds past the minute in two digits each, separated by colons. See also `ClockShape` and `SubSecondIgnored`. |
| TimeHelper.FieldsOfNonNegative | app/src/main/java/com/example/taskcronometer/utilities/TimeHelper.kt:14-25 | For a non-negative duration, the truncating field expressions are the whole hours, the minutes modulo 60 and the seconds modulo 60. |
| TimeHelper.ObtainActualTimeRunning | app/src/main/java/com/example/taskcronometer/utilities/TimeHelper.kt:27-31 | The running time at now. `ReconcileBounds` states that it adds nothing at the resume instant and never decreases while the clock does not go back. `ReconcileTelescopes` states that reconciling in two steps equals reconciling once. |
| TimeHelper.ObtainHours | app/src/main/java/com/example/taskcronometer/utilities/TimeHelper.kt:33-35 | Whenever the hours fit in an `Int`, `obtainHours` of a non-negative duration is its whole hours. |
| TimeHelper.ObtainMinutes | app/src/main/java/com/example/taskcronometer/utilities/TimeHelper.kt:37-39 | `obtainMinutes` always lies in -59..59. For a non-negative duration it is the whole minutes modulo 60. |
| TimeHelper.FieldBounds | app/src/main/java/com/example/taskcronometer/utilities/TimeHelper.kt:20-25 | For a non-negative duration: the hours are non-negative; the minutes and seconds are 0..59; the seconds are the whole seconds modulo 60. |
| TimeHelper.FieldsRecompose | app/src/main/java/com/example/taskcronometer/utilities/TimeHelper.kt:20-25 | hours * 3600 + minutes * 60 + seconds is the whole seconds of the duration. |
| TimeHelper.HoursMinutesRoundTrip | app/src/main/java/com/example/taskcronometer/utilities/TimeHelper.kt:10-39 | `obtainHours` and `obtainMinutes` of `toMilliSeconds(h, m)` give back h and m, when h >= 0, 0 <= m < 60 and the sum fits in an `Int`. |
| TimeHelper.MilliSecondsRoundTrip | app/src/main/java/com/example/taskcronometer/utilities/TimeHelper.kt:10-39 | `toMilliSeconds(obtainHours(d), obtainMinutes(d))` is d rounded down to a whole minute, when d >= 0 and 60 times the whole minutes fits in an `Int`. |
| TimeHelper.SubSecondIgnored | app/src/main/java/com/example/taskcronometer/utilities/TimeHelper.kt:14-25 | For any sign of the duration, dropping the sub-second part changes neither rendering. |
| TimeHelper.ClockShape | app/src/main/java/com/example/taskcronometer/utilities/TimeHelper.kt:14-25 | For a non-negative duration below 100 hours, `toHHMMSS` is eight characters "HH:MM:SS" whose digit fields read back as the whole seconds, and `toHHMM` is its first five characters. |
| TimeHelper.ReconcileBounds | app/src/main/java/com/example/taskcronometer/utilities/TimeHelper.kt:27-31 | Reconciling at the resume instant adds nothing. A clock that has not gone back never lowers the running time. |
| TimeHelper.ReconcileTelescopes | app/src/main/java/com/example/taskcronometer/utilities/TimeHelper.kt:27-31 | Reconciling at t1 and then again from t1 to t2 equals reconciling at t2 directly. |
| ParseTimeLeft.AgreesWithTimeHelper | app/src/main/java/com/example/taskcronometer/data/ParseTimeLeft.kt:11-26 | Each `ParseTimeLeft` conversion, including the default-seconds form, equals its `TimeHelper` counterpart on every input. |
| ParseTimeLeft.FieldsInRange | app/src/main/java/com/example/taskcronometer/data/ParseTimeLeft.kt:21-26 | For a non-negative duration below 100 hours, the minutes and seconds text are two digits from 00 to 59, and the three fields read back as the whole seconds. |
| ParseTimeLeft.ToMilliSeconds | app/src/main/java/com/example/taskcronometer/data/ParseTimeLeft.kt:11-13 | Equal on every input to `TimeHelper.ToMilliSeconds`, as `AgreesWithTimeHelper` states. |
| ParseTimeLeft.ToHHMM | app/src/main/java/com/example/taskcronometer/data/ParseTimeLeft.kt:15-19 | Equal on every input to `TimeHelper.ToHHMM`, as `AgreesWithTimeHelper` states. |
| ParseTimeLeft.ToHHMMSS | app/src/main/java/com/example/taskcronometer/data/ParseTimeLeft.kt:21-26 | Equal on every input to `TimeHelper.ToHHMMSS` (`AgreesWithTimeHelper`). Below 100 hours, its fields are two digits that read back as the whole seconds (`FieldsInRange`). |
| Tasks.FreshTaskDefaults | app/src/main/java/com/example/taskcronometer/data/Task.kt:7-16 | A task built with only name, duration and timestamps gets id 0 (unassigned), has run for no time and is paused. |
| TaskStore.Find | app/src/main/java/com/example/taskcronometer/data/TaskDao.kt:21-22 | A lookup by id returns a stored row with that id, or nothing if and only if no row has it. |
| TaskStore.FindMember | app/src/main/java/com/example/taskcronometer/data/TaskDao.kt:21-22 | In a table keyed by id, looking up the key of a stored row finds that row. |
| TaskStore.UpdateRow | app/src/main/java/com/example/taskcronometer/data/TaskDao.kt:27-28 | `@Update` replaces exactly the rows with the task's key by the task. Every other row and the key order stay the same. |
| TaskStore.DeleteRow | app/src/main/java/com/example/taskcronometer/data/TaskDao.kt:30-31 | `@Delete` keeps exactly the rows whose key differs from the task's, in key order. |
| TaskStore.InsertSorted | app/src/main/java/com/example/taskcronometer/data/TaskDao.kt:24-25 | A row with a new key goes into key order. The table gains exactly that row. |
| TaskStore.InsertKey | app/src/main/java/com/example/taskcronometer/data/Task.kt:8-9 | An id of 0 is unset and gets a key above the AUTOINCREMENT counter. Any other id is kept. |
| TaskStore.NextSequence | app/src/main/java/com/example/taskcronometer/data/Task.kt:8-9 | The AUTOINCREMENT counter never goes down and covers the key just used. |
| TaskStore.InsertRow | app/src/main/java/com/example/taskcronometer/data/TaskDao.kt:24-25 | REPLACE insert: exactly the rows under other keys remain, plus the task under its key, in key order. |
| TaskStore.TaskDao.GetAllTasks | app/src/main/java/com/example/taskcronometer/data/TaskDao.kt:18-19 | Returns every stored task, in strictly ascending id order. |
| TaskStore.TaskDao.GetTask | app/src/main/java/com/example/taskcronometer/data/TaskDao.kt:21-22 | Returns the stored row with that id, or nothing if there is none. |
| TaskStore.TaskDao.Insert | app/src/main/java/com/example/taskcronometer/data/TaskDao.kt:24-25 | The table becomes the REPLACE insert of the task, and the counter becomes `NextSequence` of the old counter and the key used, so it never goes down. Key order and the counter bound are kept. |
| TaskStore.TaskDao.Update | app/src/main/java/com/example/taskcronometer/data/TaskDao.kt:27-28 | The table becomes the update of the task. The counter does not change. |
| TaskStore.TaskDao.Delete | app/src/main/java/com/example/taskcronometer/data/TaskDao.kt:30-31 | The table becomes the delete of the task. The counter does not change. |
| TaskStore.InsertThenFind | app/src/main/java/com/example/taskcronometer/data/TaskDao.kt:24-25 | After an insert, the new key finds the task. A generated key was not in use before. Every other key finds what it found before. |
| TaskStore.FindAgrees | app/src/main/java/com/example/taskcronometer/data/TaskDao.kt:21-22 | Two key-ordered tables with the same rows under a key answer a lookup of that key alike. |
| TaskStore.UpdateThenFind | app/src/main/java/com/example/taskcronometer/data/TaskDao.kt:27-28 | After an update, the task's key finds the task if the key was stored, and nothing otherwise. |
| TaskStore.UpdateKeepsOthers | app/src/main/java/com/example/taskcronometer/data/TaskDao.kt:27-28 | An update leaves the lookup of every other key unchanged. |
| TaskStore.DeleteThenFind | app/src/main/java/com/example/taskcronometer/data/TaskDao.kt:30-31 | After a delete, the task's key finds nothing. Every other key is unaffected. |
| Repository.TasksRepository.GetAllTasksStream | app/src/main/java/com/example/taskcronometer/data/TasksRepository.kt:12 | All tasks of the data source, in id order. |
| Repository.TasksRepository.GetTaskStream | app/src/main/java/com/example/taskcronometer/data/TasksRepository.kt:17 | The task matching the id, or nothing if no task has it. |
| Repository.TasksRepository.InsertTask | app/src/main/java/com/example/taskcronometer/data/TasksRepository.kt:22 | Afterwards the task is stored under its key. A non-zero id finds exactly the task. |
| Repository.TasksRepository.DeleteTask | app/src/main/java/com/example/taskcronometer/data/TasksRepository.kt:27 | Afterwards no task has the deleted task's id. |
| Repository.TasksRepository.UpdateTask | app/src/main/java/com/example/taskcronometer/data/TasksRepository.kt:32 | Afterwards the task's id finds the task if it was stored, and nothing if it was not. |
| TaskEntry.ValidateInput | app/src/main/java/com/example/taskcronometer/ui/task/TaskEntryViewModel.kt:60-64 | Valid if and only if the name has a non-whitespace character and the duration is from one minute to 24 hours. |
| TaskEntry.ToTask | app/src/main/java/com/example/taskcronometer/ui/task/TaskEntryViewModel.kt:87-93 | A new paused task with no running time, stamped at now. `DetailsRoundTrip` states that it loses none of the details, and `ValidEntryTask` states what a valid entry becomes. |
| TaskEntry.ToTaskUiState | app/src/main/java/com/example/taskcronometer/ui/task/TaskEntryViewModel.kt:98-102 | The task's details, the given validity flag (false by default) and the picker closed, as `UiStateOfTask` states. |
| TaskEntry.ToTaskDetails | app/src/main/java/com/example/taskcronometer/ui/task/TaskEntryViewModel.kt:107-111 | The id, name and duration of the task. `TaskRoundTrip` states that a task through the form keeps them. |
| TaskEntry.InitialUiState | app/src/main/java/com/example/taskcronometer/ui/task/TaskEntryViewModel.kt:70-81 | The form starts with empty details, not valid, with the picker closed. Its empty details do not validate. |
| TaskEntry.DetailsRoundTrip | app/src/main/java/com/example/taskcronometer/ui/task/TaskEntryViewModel.kt:87-111 | Details survive a trip through a task, except the remaining time, which a task does not keep. |
| TaskEntry.TaskRoundTrip | app/src/main/java/com/example/taskcronometer/ui/task/TaskEntryViewModel.kt:87-111 | A task through the form keeps its id, name and duration and comes back as a new, paused task. |
| TaskEntry.UiStateOfTask | app/src/main/java/com/example/taskcronometer/ui/task/TaskEntryViewModel.kt:98-102 | The form state of a task shows its details, with the given validity and the picker closed. |
| TaskEntry.ValidEntryTask | app/src/main/java/com/example/taskcronometer/ui/task/TaskEntryViewModel.kt:87-93 | A valid entry gives a paused task that has not run, whose duration renders as eight characters. |
| TaskEntry.SaveAddsNewRow | app/src/main/java/com/example/taskcronometer/ui/task/TaskEntryViewModel.kt:52-58 | Saving a valid entry with no id adds a row under a previously unused key. The row holds the entry's name and duration as a new paused task. |
| TaskEntry.TaskEntryViewModel.constructor | app/src/main/java/com/example/taskcronometer/ui/task/TaskEntryViewModel.kt:23 | The form starts in its initial state, with the validity flag current. |
| TaskEntry.TaskEntryViewModel.UpdateUiStateTaskDetails | app/src/main/java/com/example/taskcronometer/ui/task/TaskEntryViewModel.kt:30-36 | New details with a freshly computed validity flag; the picker flag stays. |
| TaskEntry.TaskEntryViewModel.UpdateUiStateSelectDuration | app/src/main/java/com/example/taskcronometer/ui/task/TaskEntryViewModel.kt:41-47 | Only the picker flag changes. A current validity flag stays current. |
| TaskEntry.TaskEntryViewModel.SaveTask | app/src/main/java/com/example/taskcronometer/ui/task/TaskEntryViewModel.kt:52-58 | Valid details are inserted as a new task made at `now`. Otherwise the data source is left alone. |
| Home.ReconcileAll | app/src/main/java/com/example/taskcronometer/ui/home/HomeViewModel.kt:171-196 | The reconciled table has one row per original row. |
| Home.Started | app/src/main/java/com/example/taskcronometer/ui/home/HomeViewModel.kt:74-84 | The record a start writes. `StartKeepsElapsed` states that it keeps the running time, which then grows with the clock. |
| Home.Paused | app/src/main/java/com/example/taskcronometer/ui/home/HomeViewModel.kt:110-127 | The record a pause writes. `PauseKeepsElapsed` states that it freezes the running time at its value when paused. `RestartThenPause` states that a restart before the pause does not change it. |
| Home.Reconciled | app/src/main/java/com/example/taskcronometer/ui/home/HomeViewModel.kt:177-191 | The record a restart writes. `ReconcileInvisible` states that the running time at any later moment and the paused flag are unchanged. |
| Home.StartEffects | app/src/main/java/com/example/taskcronometer/ui/home/HomeViewModel.kt:86-99 | The requests of a start. `StartAlarm` states that an alarm is set exactly when time is left, for the time left less one millisecond, and the notification comes last. |
| Home.StopEffects | app/src/main/java/com/example/taskcronometer/ui/home/HomeViewModel.kt:129-131 | The requests of a pause (and of a delete, at lines 142-143): the alarm cancelled and the notification removed, as the ensures of `HomeViewModel.PauseTimerTask`, `DeleteTask` and `OnFinish` state. |
| Home.StartCountDown | app/src/main/java/com/example/taskcronometer/ui/home/HomeViewModel.kt:147-154 | A new live countdown for the task whose time is `Accumulated`: its time equals the stored running time plus how far the remaining time is below `Long.MAX_VALUE`. The contract states only this. The body starts at `time == task.timeRunning` with `Long.MAX_VALUE` remaining. |
| Home.Tick | app/src/main/java/com/example/taskcronometer/ui/home/HomeViewModel.kt:156-162 | A tick sets the remaining time and keeps `time + remainingTime`, so an accumulated countdown stays accumulated. `TicksAccumulate` states the effect of a series of ticks. |
| Home.StartKeepsElapsed | app/src/main/java/com/example/taskcronometer/ui/home/HomeViewModel.kt:70-84 | Starting a paused task keeps its running time. From then on, the running time grows with the clock. |
| Home.PauseKeepsElapsed | app/src/main/java/com/example/taskcronometer/ui/home/HomeViewModel.kt:106-127 | Pausing freezes the running time at its value when paused. If the task was resumed no later than now, the stored time does not go down. |
| Home.ReconcileInvisible | app/src/main/java/com/example/taskcronometer/ui/home/HomeViewModel.kt:175-191 | Reconciling a task changes neither its running time at any later moment nor its paused flag. |
| Home.RestartThenPause | app/src/main/java/com/example/taskcronometer/ui/home/HomeViewModel.kt:106-191 | Reconciling at t1 and then pausing at t2 stores the same running time as pausing at t2 alone. The records differ only in lastTimeResumed. |
| Home.ReconcileAllKeeps | app/src/main/java/com/example/taskcronometer/ui/home/HomeViewModel.kt:171-196 | Reconciling keeps every key and paused flag. Paused rows are untouched, running rows are resumed at now, and every row keeps its running time. Key order is kept. |
| Home.StartAlarm | app/src/main/java/com/example/taskcronometer/ui/home/HomeViewModel.kt:86-99 | An alarm is set if and only if time is left. Its delay is the time left minus one millisecond, which is never negative. The notification is always posted last. |
| Home.TicksAccumulate | app/src/main/java/com/example/taskcronometer/ui/home/HomeViewModel.kt:156-162 | After any ticks, the time has grown by exactly how far the remaining time came down. The remaining time is the last tick's value. While the remaining times count down, the time never shrinks. |
| Home.CountDownShowsRunningTime | app/src/main/java/com/example/taskcronometer/ui/home/HomeViewModel.kt:146-162 | After ticks r1 .. rk, a countdown started for a task shows the task's stored time plus `Long.MAX_VALUE - rk`. |
| Home.CountDownsFor | app/src/main/java/com/example/taskcronometer/ui/home/HomeViewModel.kt:171-196 | Every countdown is live, is stored under its task's key and holds the time accumulated so far. |
| Home.CountDownsForKeys | app/src/main/java/com/example/taskcronometer/ui/home/HomeViewModel.kt:171-196 | There is a countdown under a key if and only if some running row has that key. Each countdown is started from such a row. |
| Home.TickCountDown | app/src/main/java/com/example/taskcronometer/ui/home/HomeViewModel.kt:156-162 | A live countdown's tick sets its time to the stored time plus `Long.MAX_VALUE` minus the remaining time. Other countdowns are unchanged. |
| Home.CancelCountDown | app/src/main/java/com/example/taskcronometer/ui/home/HomeViewModel.kt:108 | Cancelling marks only that key's countdown as cancelled, and keeps it in the map. |
| Home.ReplayElapsed | app/src/main/java/com/example/taskcronometer/ui/home/HomeViewModel.kt:70-196 | After any history of starts, pauses and restarts, the running time is the running time at an earlier moment plus the wall-clock time spent running since then. |
| Home.RunningTimeNonNegative | app/src/main/java/com/example/taskcronometer/ui/home/HomeViewModel.kt:70-196 | For events in time order, the running time added is between zero and the time that passed. |
| Home.HomeViewModel.constructor | app/src/main/java/com/example/taskcronometer/ui/home/HomeViewModel.kt:57-64 | Creation reconciles the data source at now. It starts exactly the countdowns of the running tasks, with no timers shown and no requests yet. The AUTOINCREMENT counter is unchanged. |
| Home.HomeViewModel.HomeUiStateNow | app/src/main/java/com/example/taskcronometer/ui/home/HomeViewModel.kt:36-42 | The home screen lists every task of the data source, in key order. |
| Home.HomeViewModel.StartTimerTask | app/src/main/java/com/example/taskcronometer/ui/home/HomeViewModel.kt:70-101 | Starts a countdown for the task and stores the task running from now. Requests the alarm and the notification. |
| Home.HomeViewModel.PauseTimerTask | app/src/main/java/com/example/taskcronometer/ui/home/HomeViewModel.kt:106-133 | Cancels the task's countdown and stores the task paused at now with its running time folded in. Requests cancelling the alarm and removing the notification. |
| Home.HomeViewModel.DeleteTask | app/src/main/java/com/example/taskcronometer/ui/home/HomeViewModel.kt:138-144 | Afterwards no row has the task's id, and the alarm and notification are removed. Its countdown is left alone. |
| Home.HomeViewModel.UpdateTimer | app/src/main/java/com/example/taskcronometer/ui/home/HomeViewModel.kt:146-169 | A new countdown from the task's stored time with `Long.MAX_VALUE` remaining, under the task's key. |
| Home.HomeViewModel.OnTick | app/src/main/java/com/example/taskcronometer/ui/home/HomeViewModel.kt:156-162 | A live countdown's tick sets the timer shown for that id to the stored time plus `Long.MAX_VALUE - millisUntilFinished`. No other timer changes. |
| Home.HomeViewModel.OnFinish | app/src/main/java/com/example/taskcronometer/ui/home/HomeViewModel.kt:164-166 | A live countdown's finish pauses the task it was started for. It cancels that countdown and requests cancelling the alarm and removing the notification. Otherwise nothing changes. The AUTOINCREMENT counter is unchanged in both cases. |
| Home.HomeViewModel.UpdateTimersOnDatabase | app/src/main/java/com/example/taskcronometer/ui/home/HomeViewModel.kt:171-196 | The table becomes its reconciliation at now, and a countdown is started for each running task. Nothing else changes. |
| Home.HomeViewModel.ReconcileTask | app/src/main/java/com/example/taskcronometer/ui/home/HomeViewModel.kt:175-194 | A running task is stored reconciled and gets a countdown from the reconciled record. A paused task is skipped. |
| Home.ReconcileStep | app/src/main/java/com/example/taskcronometer/ui/home/HomeViewModel.kt:174-195 | Each pass of the loop reconciles one more row of the table, in key order, and leaves the rest as they were. |

## Left out

- The Compose screens, navigation, theme and permission dialogs are not modelled. The 50-character limit on the name field (`ui/task/TaskEntryScreen.kt:197-202`) lives in the screen, not in the view model. The choice in `ui/components/TaskItem.kt:102` between the live timer and the stored time is display only.
- The timer service (`service/`) is a foreground service driven by a background loop. Its concurrency is out of scope.
- Notifications and alarms are OS calls. They appear only as entries in the `effects` log. `setUpNotificationChannels` in the `init` block is not logged.
- Dependency wiring is not modelled. This covers `AppContainer`, `TaskCronometerApplication`, the view model provider (which calls `HomeViewModel` with one argument) and the Room database singleton. The repository's implementation class, `OfflineTasksRepository`, is not part of this model. `AppContainer` builds it over the Room `TaskDao`, so `TasksRepository` here forwards each call to a `TaskDao`.
- Room, Flow and coroutines are modelled as sequential snapshots. A stream is its value when it is read, and each launched coroutine runs to completion in launch order. Interleavings between coroutines are not modelled.
- TaskStore: the table is modelled as a sequence in key order. SQLite's B-tree storage and Room's SQL are not modelled.
- Home.HomeViewModel.UpdateTimersOnDatabase: samples one `now` for the whole loop, while the source reads the clock again for each running task. The time between two reads of the clock is not modelled.
- Task ids (`Task.id` and `TaskDetails.id`, Kotlin `Int`) are unbounded `int`s. The key the AUTOINCREMENT counter hands out (`TaskStore.InsertKey`, the counter plus one) is not limited to 32 bits. The model does not cover a table that has used up the `Int` key range.
- Kotlin `Long` overflow is not modelled, because `Long` is an unbounded `int`. This includes `Long.MAX_VALUE` arithmetic in `onTick`.
- `String.format` with `Locale.getDefault()` is modelled with ASCII digits. Locales that print other digits are not modelled.
- Home.HomeViewModel.UpdateTimer: replacing a countdown that is still running does not stop the old one in the source. The old `CountDownTimer` keeps ticking and keeps writing `timers`. The model drops the replaced countdown.
- Home.HomeViewModel.DeleteTask: the task's countdown is left in the map, as in the source. Ticks after the delete are modelled by `OnTick` like any other tick.
- `UserPreferencesRepository`, a constructor parameter of `HomeViewModel` that it never uses, is not modelled.
