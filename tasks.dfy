/** The immutable task definitions handed to the planner (Task.java). */
module Tasks {
  import opened Results

  /** The crew a task needs: its type and how many members work on the task for its whole duration. */
  datatype Crew = Crew(name: string, assignment: int)

  /**
   * A task definition. `dependencies` holds the codes of the tasks that must finish before this one
   * starts; a task built without dependencies has the empty set. Durations are non-negative time units.
   */
  datatype Task = Task(
    taskCode: string,
    operationName: string,
    elementName: string,
    duration: nat,
    crew: Option<Crew>,
    dependencies: set<string>)
}
