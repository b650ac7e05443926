/** The records the scheduler works on: processes and threads. */
module Threads {
  import opened Words

  const THREAD_STACK_SIZE: nat := 4096
  const SWITCH_TICKS: nat := 30

  datatype ThreadState = Blocked | Ready | Stopped | Started

  datatype BlockedState = Unknown | SleepMS | ReceiveIPC

  /** The scheduler only reads its processes. */
  class Process {
    const isUserspace: bool
    const pageDirPhys: Word

    constructor (user: bool, directory: Word)
      ensures isUserspace == user && pageDirPhys == directory
    {
      isUserspace, pageDirPhys := user, directory;
    }
  }

  class Thread {
    const parent: Process?
    const stack: Word
    var state: ThreadState
    var blockedState: BlockedState
    var regsPtr: Word
    var timeDelta: Word

    constructor (parent: Process?, stack: Word, regs: Word)
      ensures this.parent == parent && this.stack == stack && regsPtr == regs && state == Ready
    {
      this.parent, this.stack, regsPtr := parent, stack, regs;
      state, blockedState, timeDelta := Ready, Unknown, 0;
    }
  }
}
