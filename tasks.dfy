/** Task.java: an immutable record of a unit of work and its resource demand. */
module Tasks {

  datatype Task = Task(name: string, cpu: int, memory: int, disks: int, priority: int)

  /** The task Configuration inserts for a name that so far appears only as a dependency. */
  function DefaultTask(name: string): Task {
    Task(name, 0, 0, 0, 0)
  }
}
