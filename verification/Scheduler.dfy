/** `sched.c` and `switch.S` as they run: the task table and the registers, changed in place. */
module Scheduler {
  import opened Tasks

  class Cpu64 {
    var rbx: nat
    var rbp: nat
    var r12: nat
    var r13: nat
    var r14: nat
    var r15: nat
    var rsp: nat
    var rip: nat
    var mem: map<nat, nat>
    const tasks: array<Task>
    var curTask: nat
    var taskCount: nat
    const layout: Layout

    ghost function Regs(): Cpu
      reads this
    {
      Cpu(rbx, rbp, r12, r13, r14, r15, rsp, rip)
    }

    ghost function Abs(): Machine
      reads this, tasks
    {
      Machine(Regs(), mem, tasks[..], curTask, taskCount)
    }

    ghost predicate Valid()
      reads this, tasks
    {
      Inv(layout, Abs())
    }

    /** `sched_init`: the caller becomes task 0. */
    constructor (l: Layout, regs: Cpu, ram: map<nat, nat>)
      requires LayoutOk(l)
      ensures Valid() && layout == l && Abs() == Started(regs, ram)
    {
      layout := l;
      rbx, rbp, r12, r13, r14, r15, rsp, rip :=
        regs.rbx, regs.rbp, regs.r12, regs.r13, regs.r14, regs.r15, regs.rsp, regs.rip;
      mem := ram;
      tasks := new Task[TASK_MAX](i requires i >= 0 => Task(0, i, if i == 0 then Running else Blocked, 0));
      curTask, taskCount := 0, 1;
      new;
      assert Abs() == Started(regs, ram);
      StartedInv(l, regs, ram);
    }

    method Push(v: nat)
      requires 8 <= rsp
      modifies this`rsp, this`mem
      ensures rsp == old(rsp) - 8 && mem == old(mem)[rsp := v]
    {
      rsp := rsp - 8;
      mem := mem[rsp := v];
    }

    method Pop() returns (v: nat)
      modifies this`rsp
      ensures v == Word(mem, old(rsp)) && rsp == old(rsp) + 8
    {
      v := Word(mem, rsp);
      rsp := rsp + 8;
    }

    /** The six pushes of `switch_to`. */
    method SaveFrame()
      requires 48 <= rsp
      modifies this`rsp, this`mem
      ensures mem == Pushed(old(mem), old(Regs())) && rsp == old(rsp) - 48
    {
      Push(rbx);
      Push(rbp);
      Push(r12);
      Push(r13);
      Push(r14);
      Push(r15);
    }

    /** The six pops of `switch_to` and its `ret`. */
    method RestoreFrame()
      modifies this`rbx, this`rbp, this`r12, this`r13, this`r14, this`r15, this`rsp, this`rip
      ensures Regs() == Resumed(mem, old(rsp))
    {
      hide Word;
      r15 := Pop();
      r14 := Pop();
      r13 := Pop();
      r12 := Pop();
      rbp := Pop();
      rbx := Pop();
      rip := Pop();
    }

    /** `switch_to`: the frame of `prev` is saved on its stack, the frame of `next` restored. */
    method SwitchTo(prev: nat, next: nat)
      requires prev < tasks.Length && next < tasks.Length && prev != next && 48 <= rsp
      modifies this`rbx, this`rbp, this`r12, this`r13, this`r14, this`r15, this`rsp, this`rip, this`mem, tasks
      ensures mem == Pushed(old(mem), old(Regs()))
      ensures tasks[..] == old(tasks[..])[prev := old(tasks[prev]).(rsp := old(rsp) - 48)]
      ensures Regs() == Resumed(mem, old(tasks[next].rsp))
    {
      SaveFrame();
      tasks[prev] := tasks[prev].(rsp := rsp);
      rsp := tasks[next].rsp;
      RestoreFrame();
    }

    /** The round-robin search of `sched_yield`. */
    method FindReady() returns (next: int)
      requires tasks.Length == TASK_MAX && curTask < TASK_MAX
      ensures next == NextReady(tasks[..], curTask, 1)
    {
      for i := 1 to TASK_MAX + 1
        invariant NextReady(tasks[..], curTask, 1) == NextReady(tasks[..], curTask, i)
      {
        var candidate := (curTask + i) % TASK_MAX;
        if tasks[candidate].state == Ready {
          return candidate;
        }
      }
      return -1;
    }

    /** The bookkeeping of `sched_yield` before the switch: states, ticks and the current task. */
    method HandOver(prev: nat, next: nat)
      requires prev < tasks.Length && next < tasks.Length && prev != next
      modifies this`curTask, tasks
      ensures curTask == next
      ensures tasks[..] == Tasks.HandOver(old(tasks[..]), prev, next)
    {
      if tasks[prev].state == Running {
        tasks[prev] := tasks[prev].(state := Ready);
      }
      tasks[next] := tasks[next].(state := Running);
      tasks[prev] := tasks[prev].(ticks := tasks[prev].ticks + 1);
      curTask := next;
    }

    /** `sched_yield`, seen from the caller of `switch_to` to the task that continues. */
    method DoYield()
      requires Valid() && RoomToSwitch(layout, Abs())
      modifies this, tasks
      ensures Valid() && Abs() == Yield(old(Abs()))
    {
      YieldInv(layout, Abs());
      NextOther(Abs());
      assert tasks.Length == TASK_MAX && curTask < TASK_MAX && 48 <= rsp;
      hide Pushed, Resumed, LayoutOk, NextReady, StatesOk, FrameIn, Tasks.HandOver;
      var prev := curTask;
      var next := FindReady();
      if next < 0 {
        return;
      }
      HandOver(prev, next);
      SwitchTo(prev, next);
    }

    /** `sched_create_task`. */
    method CreateTask(entry: nat) returns (pid: int)
      requires Valid()
      modifies this`mem, this`taskCount, tasks
      ensures Valid() && (Abs(), pid) == Create(layout, old(Abs()), entry)
    {
      CreateInv(layout, Abs(), entry);
      assert 1 <= taskCount && tasks.Length == TASK_MAX;
      hide StatesOk;
      if entry == 0 {
        return -1;
      }
      if taskCount >= TASK_MAX {
        return -1;
      }
      var idx := taskCount;
      FreshConfined(layout, mem, idx, entry);
      var sp := layout.stacks[idx].hi;
      sp := sp - sp % 16;
      mem := mem[sp - 8 := entry];
      mem := mem[sp - 16 := layout.trampoline];
      mem := mem[sp - 24 := 0];
      mem := mem[sp - 32 := 0];
      mem := mem[sp - 40 := 0];
      mem := mem[sp - 48 := 0];
      mem := mem[sp - 56 := 0];
      mem := mem[sp - 64 := 0];
      tasks[idx] := Task(sp - 64, idx, Ready, 0);
      taskCount := taskCount + 1;
      return idx;
    }
  }
}
