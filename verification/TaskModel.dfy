/** The task control block: the fields of kernel/task/task.hpp that the scheduler, the
    wait queues and the timer wheel read or write. */
module TaskModel {
  import opened RbShape

  const PID_IDLE: nat := 0

  datatype TaskState = READY | RUNNING | BLOCKED | TERMINATED | ZOMBIE

  class Task {
    const pid: nat
    var vruntime: nat
    var Weight: nat
    var State: TaskState
    var RbtLeft: Task?
    var RbtRight: Task?
    var RbtParent: Task?
    var Color: Color
    var SleepTick: nat
    var NextSleepQueue: Task?
    var NextWaitTask: Task?

    constructor (pid: nat, vruntime: nat, weight: nat)
      ensures this.pid == pid && this.vruntime == vruntime && Weight == weight && State == READY
      ensures RbtLeft == null && RbtRight == null && RbtParent == null && Color == Red
      ensures SleepTick == 0 && NextSleepQueue == null && NextWaitTask == null
    {
      this.pid, this.vruntime, Weight, State := pid, vruntime, weight, READY;
      RbtLeft, RbtRight, RbtParent, Color := null, null, null, Red;
      SleepTick, NextSleepQueue, NextWaitTask := 0, null, null;
    }
  }
}
