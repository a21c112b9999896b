/** The task entry form: its state (`TaskUiState`, `TaskDetails`), the
    validation of what was typed, the conversions between the form and the
    `Task` record, and `TaskEntryViewModel`, which holds the form state and
    saves valid entries. `Date().time` becomes the parameter `now`. */
module TaskEntry {
  import opened Tasks
  import opened TaskStore
  import opened Repository
  import TimeHelper

  /** Shortest and longest duration the form accepts: one minute and 24 hours. */
  const MinDuration: int := 60_000
  const MaxDuration: int := 86_400_000

  datatype TaskDetails = TaskDetails(
    id: int := 0,
    name: string := "",
    duration: int := 0,
    remainingTime: int := 0)

  datatype TaskUiState = TaskUiState(
    taskDetails: TaskDetails := TaskDetails(),
    isEntryValid: bool := false,
    selectDuration: bool := false)

  /** Kotlin's `Char.isWhitespace`: the ASCII controls tab to carriage
      return and file to unit separator, and the Unicode space, line and
      paragraph separators. */
  predicate IsWhitespace(c: char) {
    || ('\t' <= c <= '\r')
    || ('\U{1C}' <= c <= '\U{1F}')
    || c == ' ' || c == '\U{A0}' || c == '\U{1680}'
    || ('\U{2000}' <= c <= '\U{200A}')
    || c == '\U{2028}' || c == '\U{2029}' || c == '\U{202F}' || c == '\U{205F}' || c == '\U{3000}'
  }

  /** `isBlank`: empty, or whitespace only. */
  predicate IsBlank(s: string) {
    forall i :: 0 <= i < |s| ==> IsWhitespace(s[i])
  }

  /** `validateInput`: a name with some visible character and a duration
      from one minute to 24 hours. */
  function ValidateInput(taskDetails: TaskDetails): (valid: bool)
    ensures valid <==>
      && (exists i :: 0 <= i < |taskDetails.name| && !IsWhitespace(taskDetails.name[i]))
      && MinDuration <= taskDetails.duration <= MaxDuration
    ensures valid ==> |taskDetails.name| > 0
  {
    !IsBlank(taskDetails.name) && taskDetails.duration >= 60000 && taskDetails.duration <= 86400000
  }

  /** `TaskDetails.toTask`: a new, paused task that has not run, last paused
      now and never resumed. */
  function ToTask(taskDetails: TaskDetails, now: int): Task {
    Task(
      id := taskDetails.id,
      name := taskDetails.name,
      duration := taskDetails.duration,
      lastTimePaused := now,
      lastTimeResumed := 0)
  }

  /** `Task.toTaskDetails`. */
  function ToTaskDetails(task: Task): TaskDetails {
    TaskDetails(id := task.id, name := task.name, duration := task.duration)
  }

  /** `Task.toTaskUiState`. */
  function ToTaskUiState(task: Task, isEntryValid: bool := false): TaskUiState {
    TaskUiState(taskDetails := ToTaskDetails(task), isEntryValid := isEntryValid, selectDuration := false)
  }

  /** The form starts empty, not valid and with the duration picker closed,
      and its empty details indeed do not validate. */
  lemma InitialUiState()
    ensures TaskUiState() == TaskUiState(TaskDetails(0, "", 0, 0), false, false)
    ensures !ValidateInput(TaskUiState().taskDetails)
  {
  }

  /** Details survive a trip through a task, except the remaining time,
      which a task does not keep. */
  lemma DetailsRoundTrip(taskDetails: TaskDetails, now: int)
    ensures ToTaskDetails(ToTask(taskDetails, now)) == taskDetails.(remainingTime := 0)
    ensures taskDetails.remainingTime == 0 ==> ToTaskDetails(ToTask(taskDetails, now)) == taskDetails
  {
  }

  /** A task taken through the form comes back reset: its id, name and
      duration kept, its running time and timestamps those of a new task. */
  lemma TaskRoundTrip(task: Task, now: int)
    ensures ToTask(ToTaskDetails(task), now)
         == task.(timeRunning := 0, paused := true, lastTimePaused := now, lastTimeResumed := 0)
  {
  }

  /** The form state built from a task shows that task's details with the
      picker closed. */
  lemma UiStateOfTask(task: Task, isEntryValid: bool)
    ensures ToTaskUiState(task, isEntryValid).taskDetails == ToTaskDetails(task)
    ensures ToTaskUiState(task, isEntryValid).isEntryValid == isEntryValid
    ensures !ToTaskUiState(task, isEntryValid).selectDuration
    ensures !ToTaskUiState(task).isEntryValid
  {
  }

  /** A valid entry becomes a paused task that has not run, whose duration
      is shown on the home screen as eight characters "HH:MM:SS". */
  lemma ValidEntryTask(taskDetails: TaskDetails, now: int)
    requires ValidateInput(taskDetails)
    ensures var task := ToTask(taskDetails, now);
      && task.paused && task.timeRunning == 0
      && MinDuration <= task.duration <= MaxDuration
      && |TimeHelper.ToHHMMSS(task.duration)| == 8
  {
    TimeHelper.ClockShape(taskDetails.duration);
  }

  /** Saving a valid entry with no id adds a row under a key the table did
      not hold, carrying the entry's name and duration as a new paused task. */
  lemma SaveAddsNewRow(rows: seq<Task>, sequence: int, taskDetails: TaskDetails, now: int)
    requires SortedById(rows) && KeysBelow(rows, sequence)
    requires taskDetails.id == 0
    ensures var key := InsertKey(sequence, ToTask(taskDetails, now));
      && Find(rows, key) == None
      && Find(InsertRow(rows, sequence, ToTask(taskDetails, now)), key)
         == Some(Task(key, taskDetails.name, taskDetails.duration, 0, true, now, 0))
  {
    InsertThenFind(rows, sequence, ToTask(taskDetails, now), 0);
  }

  class TaskEntryViewModel {
    const tasksRepository: TasksRepository
    var taskUiState: TaskUiState

    ghost predicate Valid()
      reads this, tasksRepository, tasksRepository.dao
    {
      tasksRepository.Valid()
    }

    /** The validity flag agrees with the details it was computed for. */
    predicate EntryFlagCurrent()
      reads this
    {
      taskUiState.isEntryValid == ValidateInput(taskUiState.taskDetails)
    }

    constructor (tasksRepository: TasksRepository)
      requires tasksRepository.Valid()
      ensures this.tasksRepository == tasksRepository
      ensures Valid()
      ensures taskUiState == TaskUiState() && EntryFlagCurrent()
    {
      this.tasksRepository := tasksRepository;
      taskUiState := TaskUiState();
    }

    /** `updateUiStateTaskDetails`: new details, validated; the picker flag stays. */
    method UpdateUiStateTaskDetails(taskDetails: TaskDetails)
      modifies this
      ensures taskUiState == TaskUiState(taskDetails, ValidateInput(taskDetails), old(taskUiState.selectDuration))
      ensures EntryFlagCurrent()
    {
      taskUiState := TaskUiState(
        taskDetails := taskDetails,
        isEntryValid := ValidateInput(taskDetails),
        selectDuration := taskUiState.selectDuration);
    }

    /** `updateUiStateSelectDuration`: only the picker flag changes. */
    method UpdateUiStateSelectDuration(selectDuration: bool)
      modifies this
      ensures taskUiState == old(taskUiState).(selectDuration := selectDuration)
      ensures old(EntryFlagCurrent()) ==> EntryFlagCurrent()
    {
      taskUiState := TaskUiState(
        taskDetails := taskUiState.taskDetails,
        isEntryValid := taskUiState.isEntryValid,
        selectDuration := selectDuration);
    }

    /** `saveTask`: inserts the task made from the current details when they
        validate; otherwise the data source is left alone. */
    method SaveTask(now: int)
      requires Valid()
      modifies tasksRepository.dao
      ensures Valid()
      ensures ValidateInput(taskUiState.taskDetails) ==>
        && tasksRepository.dao.rows
           == InsertRow(old(tasksRepository.dao.rows), old(tasksRepository.dao.sequence), ToTask(taskUiState.taskDetails, now))
        && tasksRepository.dao.sequence
           == NextSequence(old(tasksRepository.dao.sequence),
                           InsertKey(old(tasksRepository.dao.sequence), ToTask(taskUiState.taskDetails, now)))
      ensures !ValidateInput(taskUiState.taskDetails) ==>
        tasksRepository.dao.rows == old(tasksRepository.dao.rows)
        && tasksRepository.dao.sequence == old(tasksRepository.dao.sequence)
    {
      if ValidateInput(taskUiState.taskDetails) {
        tasksRepository.InsertTask(ToTask(taskUiState.taskDetails, now));
      }
    }
  }
}
