/** A process as the kernel's tables and queues see it (kernel/process.h). */
module Processes {
  datatype ProcessState = READY | RUNNING | BLOCKED | TERMINATED | CREATED

  class Process {
    var pid: int
    var parentPid: int
    var state: ProcessState
    var name: string
    var entryPoint: int
    /** The next process in whatever queue this one is in. */
    var next: Process?

    /** A table entry as it lies in cleared memory. */
    constructor ()
      ensures pid == 0 && next == null
    {
      pid, parentPid, state, name, entryPoint, next := 0, 0, READY, "", 0, null;
    }
  }
}
