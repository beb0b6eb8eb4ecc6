/** Cooperative tasks: the round-robin scheduler and the context switch, over a machine with registers
    and a memory of 8-byte words. */
module Tasks {

  const TASK_MAX: nat := 8
  const KSTACK_SIZE: nat := 4096

  datatype RunState = Ready | Running | Blocked

  datatype Task = Task(rsp: nat, pid: nat, state: RunState, ticks: nat)

  /** The registers that `switch_to` deals with; `rip` is where execution continues. */
  datatype Cpu = Cpu(rbx: nat, rbp: nat, r12: nat, r13: nat, r14: nat, r15: nat, rsp: nat, rip: nat)

  datatype Stack = Stack(lo: nat, hi: nat)

  /** The stacks of the tasks and the address of `task_trampoline`; task 0 runs on the boot stack. */
  datatype Layout = Layout(stacks: seq<Stack>, trampoline: nat)

  datatype Machine = Machine(cpu: Cpu, mem: map<nat, nat>, tasks: seq<Task>, cur: nat, count: nat)

  predicate Inside(s: Stack, x: nat) {
    s.lo <= x < s.hi
  }

  ghost predicate LayoutOk(l: Layout) {
    && |l.stacks| == TASK_MAX
    && (forall i, j, x {:trigger Inside(l.stacks[i], x), l.stacks[j]} ::
          0 <= i < TASK_MAX && 0 <= j < TASK_MAX && i != j && Inside(l.stacks[i], x) ==> !Inside(l.stacks[j], x))
    && (forall i {:trigger l.stacks[i]} :: 1 <= i < TASK_MAX ==> l.stacks[i].lo % 16 == 0 && l.stacks[i].hi == l.stacks[i].lo + KSTACK_SIZE)
  }

  function Word(mem: map<nat, nat>, a: nat): nat {
    if a in mem then mem[a] else 0
  }

  // ----- switch_to -----

  /** The registers after the pops and the `ret` of `switch_to`, from a saved stack pointer. */
  function Resumed(mem: map<nat, nat>, sp: nat): Cpu {
    Cpu(Word(mem, sp + 40), Word(mem, sp + 32), Word(mem, sp + 24), Word(mem, sp + 16), Word(mem, sp + 8), Word(mem, sp),
        sp + 56, Word(mem, sp + 48))
  }

  /** The memory after the six pushes. */
  function Pushed(mem: map<nat, nat>, c: Cpu): map<nat, nat>
    requires 48 <= c.rsp
  {
    mem[c.rsp - 8 := c.rbx][c.rsp - 16 := c.rbp][c.rsp - 24 := c.r12][c.rsp - 32 := c.r13][c.rsp - 40 := c.r14][c.rsp - 48 := c.r15]
  }

  /** What an ordinary return from the call at hand would leave in the registers. */
  function ReturnContext(m: Machine): Cpu {
    m.cpu.(rip := Word(m.mem, m.cpu.rsp), rsp := m.cpu.rsp + 8)
  }

  /** Saving and restoring are inverse: the pushed frame resumes to the return context. */
  lemma PushThenResume(m: Machine)
    requires 48 <= m.cpu.rsp
    ensures Resumed(Pushed(m.mem, m.cpu), m.cpu.rsp - 48) == ReturnContext(m)
  {
  }

  // ----- the scheduler -----

  /** The first READY task among the candidates `prev + i`, `prev + i + 1`, ..., `prev + TASK_MAX`. */
  function NextReady(tasks: seq<Task>, prev: nat, i: nat): (r: int)
    requires |tasks| == TASK_MAX && 1 <= i <= TASK_MAX + 1
    ensures -1 <= r < TASK_MAX
    decreases TASK_MAX + 1 - i
  {
    if i > TASK_MAX then -1
    else if tasks[(prev + i) % TASK_MAX].state == Ready then (prev + i) % TASK_MAX
    else NextReady(tasks, prev, i + 1)
  }

  /** The bookkeeping of `sched_yield` before the switch. */
  function HandOver(tasks: seq<Task>, prev: nat, next: nat): (r: seq<Task>)
    requires prev < |tasks| && next < |tasks|
    ensures |r| == |tasks|
  {
    var was := tasks[prev];
    tasks[prev := was.(state := if was.state == Running then Ready else was.state, ticks := was.ticks + 1)]
         [next := tasks[next].(state := Running)]
  }

  /** `sched_yield` with the switch. */
  function Yield(m: Machine): Machine
    requires |m.tasks| == TASK_MAX && m.cur < TASK_MAX && 48 <= m.cpu.rsp
  {
    var next := NextReady(m.tasks, m.cur, 1);
    if next < 0 then m else
    var tasks := HandOver(m.tasks, m.cur, next);
    var mem := Pushed(m.mem, m.cpu);
    Machine(Resumed(mem, tasks[next].rsp), mem, tasks[m.cur := tasks[m.cur].(rsp := m.cpu.rsp - 48)], next, m.count)
  }

  /** The initial stack of a new task: the entry pointer on top, the trampoline as return address, six zeros. */
  function FreshStack(mem: map<nat, nat>, top: nat, trampoline: nat, entry: nat): map<nat, nat>
    requires 64 <= top
  {
    mem[top - 8 := entry][top - 16 := trampoline][top - 24 := 0][top - 32 := 0]
       [top - 40 := 0][top - 48 := 0][top - 56 := 0][top - 64 := 0]
  }

  function Top(s: Stack): nat {
    s.hi - s.hi % 16
  }

  /** `sched_create_task`: the new state and the result, -1 when there is no room or no entry. */
  function Create(l: Layout, m: Machine, entry: nat): (Machine, int)
    requires LayoutOk(l) && |m.tasks| == TASK_MAX && 1 <= m.count
  {
    if entry == 0 || m.count >= TASK_MAX then (m, -1) else
    var top := Top(l.stacks[m.count]);
    (m.(mem := FreshStack(m.mem, top, l.trampoline, entry),
        tasks := m.tasks[m.count := Task(top - 64, m.count, Ready, 0)],
        count := m.count + 1), m.count as int)
  }

  // ----- the invariant -----

  /** Exactly the current task is RUNNING, the other created tasks are READY, the rest BLOCKED. */
  ghost predicate StatesOk(m: Machine) {
    && |m.tasks| == TASK_MAX && m.cur < m.count <= TASK_MAX
    && forall t {:trigger m.tasks[t]} :: 0 <= t < TASK_MAX ==>
         m.tasks[t].state == if t == m.cur then Running else if t < m.count then Ready else Blocked
  }

  /** The saved frame of a suspended task lies in its own stack. */
  predicate FrameIn(l: Layout, m: Machine, t: nat)
    requires t < |m.tasks| && t < |l.stacks|
  {
    l.stacks[t].lo <= m.tasks[t].rsp && m.tasks[t].rsp + 56 <= l.stacks[t].hi
  }

  ghost predicate Inv(l: Layout, m: Machine) {
    && LayoutOk(l) && StatesOk(m)
    && forall t: nat {:trigger FrameIn(l, m, t)} :: t < m.count && t != m.cur ==> FrameIn(l, m, t)
  }

  /** How the suspended task `t` will continue. */
  function Context(m: Machine, t: nat): Cpu
    requires t < |m.tasks|
  {
    Resumed(m.mem, m.tasks[t].rsp)
  }

  // ----- steps -----

  /** Work: the running task computes, changing registers and its own stack only. */
  datatype Action = Work(cpu: Cpu, mem: map<nat, nat>) | DoYield | DoCreate(entry: nat)

  ghost predicate Confined(s: Stack, old_: map<nat, nat>, new_: map<nat, nat>) {
    forall a {:trigger Word(new_, a)} :: Inside(s, a) || Word(new_, a) == Word(old_, a)
  }

  /** `switch_to` has room for its frame on the stack of the running task. */
  predicate RoomToSwitch(l: Layout, m: Machine)
    requires m.cur < |l.stacks|
  {
    l.stacks[m.cur].lo + 48 <= m.cpu.rsp && m.cpu.rsp + 8 <= l.stacks[m.cur].hi
  }

  ghost predicate Permitted(l: Layout, m: Machine, a: Action)
    requires Inv(l, m)
  {
    match a
    case Work(_, mem) => Confined(l.stacks[m.cur], m.mem, mem)
    case DoYield => RoomToSwitch(l, m)
    case DoCreate(_) => true
  }

  function Next(l: Layout, m: Machine, a: Action): Machine
    requires Inv(l, m) && Permitted(l, m, a)
  {
    match a
    case Work(cpu, mem) => m.(cpu := cpu, mem := mem)
    case DoYield => Yield(m)
    case DoCreate(entry) => Create(l, m, entry).0
  }

  /** The next task in cyclic order. */
  function Successor(cur: nat, count: nat): (r: nat)
    requires cur < count
    ensures r < count && r == (cur + 1) % count
  {
    SmallMod(cur + 1, count);
    if cur + 1 == count then 0 else cur + 1
  }

  lemma SmallMod(x: nat, n: nat)
    requires 0 < n
    ensures x < n ==> x % n == x
    ensures x == n ==> x % n == 0
  {
  }

  /** With two or more created tasks the search finds the cyclic successor; alone, a task finds nobody. */
  lemma RoundRobin(m: Machine)
    requires StatesOk(m)
    ensures NextReady(m.tasks, m.cur, 1) == if m.count == 1 then -1 else Successor(m.cur, m.count)
  {
    if m.cur + 1 < m.count {
      SmallMod(m.cur + 1, TASK_MAX);
      assert m.tasks[m.cur + 1].state == Ready;
      FirstCandidate(m.tasks, m.cur);
    } else {
      hide NextReady;
      SkipBlocked(m, 1);
    }
  }

  lemma NextOther(m: Machine)
    requires StatesOk(m)
    ensures NextReady(m.tasks, m.cur, 1) != m.cur
  {
    hide NextReady;
    RoundRobin(m);
  }

  lemma FirstCandidate(tasks: seq<Task>, cur: nat)
    requires |tasks| == TASK_MAX && tasks[(cur + 1) % TASK_MAX].state == Ready
    ensures NextReady(tasks, cur, 1) == (cur + 1) % TASK_MAX
  {
  }

  /** From the last created task on, the search passes the unused slots and meets task 0. */
  lemma {:induction false} SkipBlocked(m: Machine, i: nat)
    requires StatesOk(m) && m.cur + 1 == m.count && 1 <= i <= TASK_MAX - m.cur
    ensures NextReady(m.tasks, m.cur, i) == if m.count == 1 then -1 else 0
    decreases TASK_MAX - i
  {
    if i < TASK_MAX - m.cur {
      SkipBlocked(m, i + 1);
    }
  }

  // ----- what a step does to suspended tasks -----

  /** Changes confined to one stack leave a frame in another stack alone. */
  lemma FrameKept(l: Layout, u: nat, t: nat, old_: map<nat, nat>, new_: map<nat, nat>, sp: nat)
    requires LayoutOk(l) && u < TASK_MAX && t < TASK_MAX && u != t && Confined(l.stacks[u], old_, new_)
    requires l.stacks[t].lo <= sp && sp + 56 <= l.stacks[t].hi
    ensures Resumed(new_, sp) == Resumed(old_, sp)
  {
    forall a | sp <= a < sp + 56 ensures Word(new_, a) == Word(old_, a) {
      assert Inside(l.stacks[t], a);
      assert l.stacks[u] == l.stacks[u];
    }
  }

  lemma PushesConfined(l: Layout, m: Machine)
    requires m.cur < |l.stacks| && RoomToSwitch(l, m)
    ensures Confined(l.stacks[m.cur], m.mem, Pushed(m.mem, m.cpu))
  {
  }

  lemma FreshConfined(l: Layout, mem: map<nat, nat>, t: nat, entry: nat)
    requires LayoutOk(l) && 1 <= t < TASK_MAX
    ensures Top(l.stacks[t]) == l.stacks[t].hi >= KSTACK_SIZE
    ensures Confined(l.stacks[t], mem, FreshStack(mem, Top(l.stacks[t]), l.trampoline, entry))
  {
    assert l.stacks[t].hi == l.stacks[t].lo + KSTACK_SIZE;
  }

  /** A yield saves the return context of the running task and resumes the saved context of the next. */
  lemma YieldSwitches(l: Layout, m: Machine)
    requires Inv(l, m) && RoomToSwitch(l, m) && m.count > 1
    ensures var m' := Yield(m);
            var next := Successor(m.cur, m.count);
            && m'.cur == next != m.cur && m'.cpu == Context(m, next)
            && Context(m', m.cur) == ReturnContext(m)
            && m'.tasks[m.cur].ticks == m.tasks[m.cur].ticks + 1
            && (forall t :: 0 <= t < TASK_MAX && t != m.cur ==>
                  m'.tasks[t].rsp == m.tasks[t].rsp && m'.tasks[t].ticks == m.tasks[t].ticks)
            && (forall t :: 0 <= t < TASK_MAX ==> m'.tasks[t].pid == m.tasks[t].pid)
  {
    hide Pushed, Resumed, NextReady;
    RoundRobin(m);
    var next := Successor(m.cur, m.count);
    PushesConfined(l, m);
    PushThenResume(m);
    assert FrameIn(l, m, next);
    FrameKept(l, m.cur, next, m.mem, Pushed(m.mem, m.cpu), m.tasks[next].rsp);
  }

  /** A task alone keeps registers, memory and ticks: its yield does nothing. */
  lemma AloneStays(l: Layout, m: Machine)
    requires Inv(l, m) && RoomToSwitch(l, m) && m.count == 1
    ensures Yield(m) == m
  {
    hide NextReady;
    RoundRobin(m);
  }

  /** Without an entry point or without a free slot nothing is created; otherwise one more task is READY
      in the next slot, with no ticks, and neither the running task nor any other is touched. */
  lemma CreateExactly(l: Layout, m: Machine, entry: nat)
    requires Inv(l, m)
    ensures var (m', pid) := Create(l, m, entry);
            && (entry == 0 || m.count == TASK_MAX ==> m' == m && pid == -1)
            && (entry != 0 && m.count < TASK_MAX ==>
                  && pid == m.count && m'.count == m.count + 1 && m'.cur == m.cur && m'.cpu == m.cpu
                  && m'.tasks[m.count].pid == m.count && m'.tasks[m.count].state == Ready && m'.tasks[m.count].ticks == 0
                  && (forall t :: 0 <= t < TASK_MAX && t != m.count ==> m'.tasks[t] == m.tasks[t])
                  && Confined(l.stacks[m.count], m.mem, m'.mem))
  {
    if m.count < TASK_MAX { FreshConfined(l, m.mem, m.count, entry); }
  }

  lemma YieldInv(l: Layout, m: Machine)
    requires Inv(l, m) && RoomToSwitch(l, m)
    ensures Inv(l, Yield(m)) && Yield(m).count == m.count
  {
    hide NextReady, Resumed, Pushed;
    RoundRobin(m);
    if m.count > 1 {
      var m' := Yield(m);
      YieldSwitches(l, m);
      forall t: nat | t < m'.count && t != m'.cur ensures FrameIn(l, m', t) {
        if t != m.cur { assert FrameIn(l, m, t); }
      }
    }
  }

  lemma CreateInv(l: Layout, m: Machine, entry: nat)
    requires Inv(l, m)
    ensures Inv(l, Create(l, m, entry).0)
  {
    var m' := Create(l, m, entry).0;
    if m' != m {
      FreshConfined(l, m.mem, m.count, entry);
      forall t: nat | t < m'.count && t != m'.cur ensures FrameIn(l, m', t) {
        if t != m.count { assert FrameIn(l, m, t); }
      }
    }
  }

  lemma NextInv(l: Layout, m: Machine, a: Action)
    requires Inv(l, m) && Permitted(l, m, a)
    ensures Inv(l, Next(l, m, a))
  {
    match a
    case Work(cpu, mem) =>
      var m' := Next(l, m, a);
      forall t: nat | t < m'.count && t != m'.cur ensures FrameIn(l, m', t) { assert FrameIn(l, m, t); }
    case DoYield => YieldInv(l, m);
    case DoCreate(entry) => CreateInv(l, m, entry);
  }

  /** As long as a task stays suspended, no step of any other task changes how it will continue. */
  lemma ContextKept(l: Layout, m: Machine, a: Action, t: nat)
    requires Inv(l, m) && Permitted(l, m, a) && t < m.count && t != m.cur && Next(l, m, a).cur != t
    ensures Context(Next(l, m, a), t) == Context(m, t)
  {
    assert FrameIn(l, m, t);
    match a
    case Work(cpu, mem) => FrameKept(l, m.cur, t, m.mem, mem, m.tasks[t].rsp);
    case DoYield =>
      RoundRobin(m);
      if m.count > 1 {
        YieldSwitches(l, m);
        PushesConfined(l, m);
        FrameKept(l, m.cur, t, m.mem, Pushed(m.mem, m.cpu), m.tasks[t].rsp);
      }
    case DoCreate(entry) =>
      if m.count < TASK_MAX {
        FreshConfined(l, m.mem, m.count, entry);
        FrameKept(l, m.count, t, m.mem, FreshStack(m.mem, Top(l.stacks[m.count]), l.trampoline, entry), m.tasks[t].rsp);
      }
  }

  // ----- whole runs -----

  /** `sched_init`: the caller becomes task 0. */
  function Started(regs: Cpu, mem: map<nat, nat>): Machine {
    Machine(regs, mem, seq(TASK_MAX, t requires 0 <= t => Task(0, t, if t == 0 then Running else Blocked, 0)), 0, 1)
  }

  /** `t` is reached from `m` by a run of permitted actions. */
  ghost predicate Reaches(l: Layout, m: Machine, acts: seq<Action>, t: Machine)
    requires Inv(l, m)
    decreases |acts|
  {
    if acts == [] then m == t
    else Permitted(l, m, acts[0]) && (NextInv(l, m, acts[0]); Reaches(l, Next(l, m, acts[0]), acts[1..], t))
  }

  lemma StartedInv(l: Layout, regs: Cpu, mem: map<nat, nat>)
    requires LayoutOk(l)
    ensures Inv(l, Started(regs, mem))
  {
  }

  /** In every state reached after `sched_init`, by any work, yields and creations, exactly the current
      task is RUNNING, the other created tasks are READY, and their frames lie in their own stacks. */
  lemma {:induction false} EveryRunInv(l: Layout, m: Machine, acts: seq<Action>, t: Machine)
    requires Inv(l, m) && Reaches(l, m, acts, t)
    ensures Inv(l, t)
    decreases |acts|
  {
    if acts != [] {
      NextInv(l, m, acts[0]);
      EveryRunInv(l, Next(l, m, acts[0]), acts[1..], t);
    }
  }

  /** A run of permitted actions during which task `t` never runs. */
  ghost predicate RunsWithout(l: Layout, m: Machine, acts: seq<Action>, t: nat)
    requires Inv(l, m)
    decreases |acts|
  {
    m.cur != t && (acts == [] ||
      (Permitted(l, m, acts[0]) && (NextInv(l, m, acts[0]); RunsWithout(l, Next(l, m, acts[0]), acts[1..], t))))
  }

  function After(l: Layout, m: Machine, acts: seq<Action>, t: nat): (m': Machine)
    requires Inv(l, m) && RunsWithout(l, m, acts, t)
    ensures Inv(l, m') && m'.cur != t && m'.count >= m.count
    decreases |acts|
  {
    if acts == [] then m else
    NextInv(l, m, acts[0]);
    After(l, Next(l, m, acts[0]), acts[1..], t)
  }

  lemma {:induction false} ContextKeptOverRun(l: Layout, m: Machine, acts: seq<Action>, t: nat)
    requires Inv(l, m) && t < m.count && RunsWithout(l, m, acts, t)
    ensures Context(After(l, m, acts, t), t) == Context(m, t)
    decreases |acts|
  {
    if acts != [] {
      NextInv(l, m, acts[0]);
      ContextKept(l, m, acts[0], t);
      ContextKeptOverRun(l, Next(l, m, acts[0]), acts[1..], t);
    }
  }

  /** Whatever other tasks do in between, a task that yields resumes, when its turn comes, with the
      callee-saved registers, the return address and the stack pointer that an ordinary return from
      `switch_to` would have left. */
  lemma ResumesUnchanged(l: Layout, m: Machine, acts: seq<Action>)
    requires Inv(l, m) && m.count > 1 && RoomToSwitch(l, m)
    requires Inv(l, Yield(m)) && RunsWithout(l, Yield(m), acts, m.cur)
    ensures var back := After(l, Yield(m), acts, m.cur);
            back.count > 1 && RoomToSwitch(l, back) && Successor(back.cur, back.count) == m.cur
            ==> Yield(back).cur == m.cur && Yield(back).cpu == ReturnContext(m)
  {
    YieldInv(l, m);
    YieldSwitches(l, m);
    ContextKeptOverRun(l, Yield(m), acts, m.cur);
    var back := After(l, Yield(m), acts, m.cur);
    if back.count > 1 && RoomToSwitch(l, back) {
      YieldSwitches(l, back);
    }
  }
}
