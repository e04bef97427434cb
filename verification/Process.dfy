/** What the two process tables share. */
module Process {
  import opened Params

  /** Process pointers are indices into the table, and this is the null pointer. */
  const NIL: int := -1

  datatype State = UNUSED | EMBRYO | SLEEPING | RUNNABLE | RUNNING | ZOMBIE

  /** How a round of `wait` ends: with a child's id, with -1, or asleep. */
  datatype WaitResult = Reaped(id: int) | NoChild | Asleep

  ghost predicate IsProc(p: int) {
    0 <= p < NPROC
  }
}
