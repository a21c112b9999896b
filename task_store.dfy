/** The `tasks` table behind the Room data access object `TaskDao`. The
    rows are kept in ascending primary-key order, as SQLite stores a table
    keyed by an integer primary key, together with the AUTOINCREMENT
    counter that hands out keys to rows inserted with id 0. */
module TaskStore {
  import opened Tasks

  datatype Option<T> = None | Some(value: T)

  /** Strictly ascending ids: what `ORDER BY id ASC` yields over a primary key. */
  predicate SortedById(rows: seq<Task>) {
    forall i, j :: 0 <= i < j < |rows| ==> rows[i].id < rows[j].id
  }

  /** Every key in the table is at most the AUTOINCREMENT counter. */
  predicate KeysBelow(rows: seq<Task>, sequence: int) {
    forall i :: 0 <= i < |rows| ==> rows[i].id <= sequence
  }

  /** `SELECT * FROM tasks WHERE id = :id`: the row with that key, if any. */
  function Find(rows: seq<Task>, id: int): (r: Option<Task>)
    ensures r.Some? ==> r.value in rows && r.value.id == id
    ensures r.None? ==> forall i :: 0 <= i < |rows| ==> rows[i].id != id
  {
    if rows == [] then None
    else if rows[0].id == id then Some(rows[0])
    else Find(rows[1..], id)
  }

  /** In a table keyed by id, looking up a stored row's key finds that row. */
  lemma {:induction false} FindMember(rows: seq<Task>, t: Task)
    requires SortedById(rows) && t in rows
    ensures Find(rows, t.id) == Some(t)
  {
    if rows[0] != t {
      SortedTail(rows);
      assert rows[0].id < t.id;
      assert t in rows[1..] by {
        var k :| 0 <= k < |rows| && rows[k] == t;
        assert rows[1..][k - 1] == t;
      }
      assert SortedById(rows[1..]);
      FindMember(rows[1..], t);
    }
  }

  /** `@Update`: the row whose key is the task's id becomes the task; with
      no such row nothing changes. */
  function UpdateRow(rows: seq<Task>, task: Task): (r: seq<Task>)
    ensures |r| == |rows|
    ensures forall i :: 0 <= i < |rows| ==> r[i] == if rows[i].id == task.id then task else rows[i]
    ensures SortedById(rows) ==> SortedById(r)
  {
    if rows == [] then []
    else [if rows[0].id == task.id then task else rows[0]] + UpdateRow(rows[1..], task)
  }

  /** `@Delete`: the row whose key is the task's id goes (only the key is
      compared); every other row stays, in order. */
  function DeleteRow(rows: seq<Task>, task: Task): (r: seq<Task>)
    ensures forall t :: t in r <==> t in rows && t.id != task.id
    ensures SortedById(rows) ==> SortedById(r)
    ensures |r| <= |rows|
  {
    if rows == [] then []
    else if rows[0].id == task.id then DeleteRow(rows[1..], task)
    else [rows[0]] + DeleteRow(rows[1..], task)
  }

  /** Places a row whose key is not yet present at its place in key order. */
  function InsertSorted(rows: seq<Task>, task: Task): (r: seq<Task>)
    requires SortedById(rows)
    requires forall i :: 0 <= i < |rows| ==> rows[i].id != task.id
    ensures SortedById(r) && |r| == |rows| + 1
    ensures forall t :: t in r <==> t in rows || t == task
  {
    if rows == [] || task.id < rows[0].id then [task] + rows
    else
      var rest := InsertSorted(rows[1..], task);
      SortedTail(rows);
      SortedCons(rows[0], rest);
      [rows[0]] + rest
  }

  /** Every row after the first has a larger key than the first. */
  lemma SortedTail(rows: seq<Task>)
    requires SortedById(rows) && rows != []
    ensures forall t :: t in rows[1..] ==> rows[0].id < t.id
  {
    forall t | t in rows[1..] ensures rows[0].id < t.id {
      var k :| 0 <= k < |rows[1..]| && rows[1..][k] == t;
      assert rows[k + 1] == t;
    }
  }

  /** A row with a key below every key of a key-ordered table can go first. */
  lemma SortedCons(first: Task, rest: seq<Task>)
    requires SortedById(rest) && forall t :: t in rest ==> first.id < t.id
    ensures SortedById([first] + rest)
  {
    var r := [first] + rest;
    forall i, j | 0 <= i < j < |r| ensures r[i].id < r[j].id {
      assert r[j] == rest[j - 1];
      assert rest[j - 1] in rest;
      if i > 0 {
        assert r[i] == rest[i - 1];
      }
    }
  }

  /** The key an inserted row gets: Room treats an auto-generated key of 0
      as unset, and SQLite's AUTOINCREMENT then picks one past the counter. */
  function InsertKey(sequence: int, task: Task): (key: int)
    ensures task.id == 0 ==> key > sequence
    ensures task.id != 0 ==> key == task.id
  {
    if task.id == 0 then sequence + 1 else task.id
  }

  /** The AUTOINCREMENT counter after a row is stored under `key`. */
  function NextSequence(sequence: int, key: int): (s: int)
    ensures s >= sequence && s >= key && (s == sequence || s == key)
  {
    if key > sequence then key else sequence
  }

  /** `@Insert(onConflict = REPLACE)`: a row already stored under the key is
      deleted, then the task is inserted under the key. */
  function InsertRow(rows: seq<Task>, sequence: int, task: Task): (r: seq<Task>)
    requires SortedById(rows)
    ensures SortedById(r)
    ensures forall t :: t in r <==>
      ((t in rows && t.id != InsertKey(sequence, task)) || t == task.(id := InsertKey(sequence, task)))
  {
    var key := InsertKey(sequence, task);
    InsertSorted(DeleteRow(rows, task.(id := key)), task.(id := key))
  }

  class TaskDao {
    var rows: seq<Task>
    /** The AUTOINCREMENT counter: the largest key the table has held. */
    var sequence: int

    ghost predicate Valid()
      reads this
    {
      SortedById(rows) && sequence >= 0 && KeysBelow(rows, sequence)
    }

    constructor ()
      ensures Valid() && rows == [] && sequence == 0
    {
      rows := [];
      sequence := 0;
    }

    /** `getAllTasks`: every stored task, in ascending id order. */
    method GetAllTasks() returns (ts: seq<Task>)
      requires Valid()
      ensures ts == rows && SortedById(ts)
    {
      ts := rows;
    }

    /** `getTask`: the row whose id is `id`, if there is one. */
    function GetTask(id: int): (r: Option<Task>)
      requires Valid()
      reads this
      ensures r.Some? ==> r.value in rows && r.value.id == id
      ensures r.None? ==> forall t :: t in rows ==> t.id != id
    {
      Find(rows, id)
    }

    /** `insert`, REPLACE on conflict. */
    method Insert(task: Task)
      requires Valid()
      modifies this
      ensures Valid()
      ensures rows == InsertRow(old(rows), old(sequence), task)
      ensures sequence == NextSequence(old(sequence), InsertKey(old(sequence), task))
    {
      var key := InsertKey(sequence, task);
      rows := InsertRow(rows, sequence, task);
      sequence := NextSequence(sequence, key);
      forall i | 0 <= i < |rows| ensures rows[i].id <= sequence {
        assert rows[i] in rows;
      }
    }

    /** `update`. */
    method Update(task: Task)
      requires Valid()
      modifies this
      ensures Valid()
      ensures rows == UpdateRow(old(rows), task) && sequence == old(sequence)
    {
      rows := UpdateRow(rows, task);
    }

    /** `delete`. */
    method Delete(task: Task)
      requires Valid()
      modifies this
      ensures Valid()
      ensures rows == DeleteRow(old(rows), task) && sequence == old(sequence)
    {
      rows := DeleteRow(rows, task);
      forall i | 0 <= i < |rows| ensures rows[i].id <= sequence {
        assert rows[i] in rows;
      }
    }
  }

  /** After an insert a lookup of the key the row got finds the task (with
      that key), a new key is one the table did not hold, and every other
      key still finds what it found before. */
  lemma InsertThenFind(rows: seq<Task>, sequence: int, task: Task, other: int)
    requires SortedById(rows) && KeysBelow(rows, sequence)
    ensures var key := InsertKey(sequence, task);
      && Find(InsertRow(rows, sequence, task), key) == Some(task.(id := key))
      && (task.id == 0 ==> Find(rows, key) == None)
      && (other != key ==> Find(InsertRow(rows, sequence, task), other) == Find(rows, other))
  {
    var key := InsertKey(sequence, task);
    var after := InsertRow(rows, sequence, task);
    FindMember(after, task.(id := key));
    if other != key {
      FindAgrees(rows, after, other);
    }
  }

  /** Two key-ordered tables that hold the same rows under `id` answer a
      lookup of `id` alike. */
  lemma FindAgrees(a: seq<Task>, b: seq<Task>, id: int)
    requires SortedById(a) && SortedById(b)
    requires forall t: Task :: t.id == id ==> (t in a <==> t in b)
    ensures Find(a, id) == Find(b, id)
  {
    if exists t :: t in a && t.id == id {
      var t :| t in a && t.id == id;
      FindMember(a, t);
      FindMember(b, t);
    }
  }

  /** After an update the task's own key finds the task when it was
      stored, and nothing when it was not. */
  lemma UpdateThenFind(rows: seq<Task>, task: Task)
    requires SortedById(rows)
    ensures Find(UpdateRow(rows, task), task.id) == if Find(rows, task.id).Some? then Some(task) else None
  {
    var after := UpdateRow(rows, task);
    if exists i :: 0 <= i < |rows| && rows[i].id == task.id {
      var i :| 0 <= i < |rows| && rows[i].id == task.id;
      FindMember(rows, rows[i]);
      assert after[i] == task;
      FindMember(after, task);
    } else {
      assert after == rows;
    }
  }

  /** An update leaves every other key's row as it was. */
  lemma UpdateKeepsOthers(rows: seq<Task>, task: Task, other: int)
    requires SortedById(rows) && other != task.id
    ensures Find(UpdateRow(rows, task), other) == Find(rows, other)
  {
    var after := UpdateRow(rows, task);
    forall t: Task | t.id == other ensures t in rows <==> t in after {
      if t in rows {
        var i :| 0 <= i < |rows| && rows[i] == t;
        assert after[i] == t;
      }
      if t in after {
        var i :| 0 <= i < |after| && after[i] == t;
        assert rows[i] == t;
      }
    }
    FindAgrees(rows, after, other);
  }

  /** After a delete the task's key finds nothing; every other key is
      unaffected. */
  lemma DeleteThenFind(rows: seq<Task>, task: Task, other: int)
    requires SortedById(rows)
    ensures Find(DeleteRow(rows, task), task.id) == None
    ensures other != task.id ==> Find(DeleteRow(rows, task), other) == Find(rows, other)
  {
    if other != task.id {
      FindAgrees(rows, DeleteRow(rows, task), other);
    }
  }
}
