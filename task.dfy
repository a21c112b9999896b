/** The persisted task record. */
module Tasks {

  /** A row of the `tasks` table. `id` 0 means the store has not assigned
      one yet (the key is generated on insert); a new task has run for no
      time and starts paused. The two timestamps have no default. */
  datatype Task = Task(
    id: int := 0,
    name: string,
    duration: int,
    timeRunning: int := 0,
    paused: bool := true,
    lastTimePaused: int,
    lastTimeResumed: int)

  /** A task built with only the required fields takes the defaults. */
  lemma FreshTaskDefaults(name: string, duration: int, lastTimePaused: int, lastTimeResumed: int)
    ensures var t := Task(name := name, duration := duration,
                          lastTimePaused := lastTimePaused, lastTimeResumed := lastTimeResumed);
      && t.id == 0 && t.timeRunning == 0 && t.paused
      && t.name == name && t.duration == duration
      && t.lastTimePaused == lastTimePaused && t.lastTimeResumed == lastTimeResumed
  {
  }
}
