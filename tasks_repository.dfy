/** `TasksRepository`: insert, update, delete and retrieve tasks from a data
    source. The app's implementation hands every call to the `TaskDao` of
    the Room database, so the data source here is a `TaskDao`; each stream
    is read as the snapshot it emits at the time of the call. */
module Repository {
  import opened Tasks
  import opened TaskStore

  class TasksRepository {
    const dao: TaskDao

    ghost predicate Valid()
      reads this, dao
    {
      dao.Valid()
    }

    constructor (dao: TaskDao)
      requires dao.Valid()
      ensures this.dao == dao && Valid()
    {
      this.dao := dao;
    }

    /** `getAllTasksStream`: all the tasks of the data source, in id order. */
    method GetAllTasksStream() returns (ts: seq<Task>)
      requires Valid()
      ensures ts == dao.rows && SortedById(ts)
    {
      ts := dao.GetAllTasks();
    }

    /** `getTaskStream`: the task matching `id`, or none. */
    function GetTaskStream(id: int): (r: Option<Task>)
      requires Valid()
      reads this, dao
      ensures r.Some? ==> r.value in dao.rows && r.value.id == id
      ensures r.None? ==> forall t :: t in dao.rows ==> t.id != id
    {
      dao.GetTask(id)
    }

    /** `insertTask`: afterwards a task with the given fields is in the data
        source, under the given id unless that was 0. */
    method InsertTask(task: Task)
      requires Valid()
      modifies dao
      ensures Valid()
      ensures dao.rows == InsertRow(old(dao.rows), old(dao.sequence), task)
      ensures dao.sequence == NextSequence(old(dao.sequence), InsertKey(old(dao.sequence), task))
      ensures task.(id := InsertKey(old(dao.sequence), task)) in dao.rows
      ensures task.id != 0 ==> GetTaskStream(task.id) == Some(task)
    {
      dao.Insert(task);
      if task.id != 0 {
        FindMember(dao.rows, task);
      }
    }

    /** `deleteTask`: afterwards no task with the task's id remains. */
    method DeleteTask(task: Task)
      requires Valid()
      modifies dao
      ensures Valid()
      ensures dao.rows == DeleteRow(old(dao.rows), task) && dao.sequence == old(dao.sequence)
      ensures GetTaskStream(task.id) == None
    {
      dao.Delete(task);
    }

    /** `updateTask`: afterwards the task stored under the task's id is the
        task, if that id was stored. */
    method UpdateTask(task: Task)
      requires Valid()
      modifies dao
      ensures Valid()
      ensures dao.rows == UpdateRow(old(dao.rows), task) && dao.sequence == old(dao.sequence)
      ensures Find(dao.rows, task.id) == if Find(old(dao.rows), task.id).Some? then Some(task) else None
    {
      UpdateThenFind(dao.rows, task);
      dao.Update(task);
    }
  }
}
