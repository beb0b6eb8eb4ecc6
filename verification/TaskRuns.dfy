/** Fresh tasks and fairness, over whole runs of the scheduler. */
module TaskRuns {
  import opened Tasks

  // ----- fresh tasks -----

  /** No word of the stack `s` differs. */
  ghost predicate SameStack(s: Stack, old_: map<nat, nat>, new_: map<nat, nat>) {
    forall a {:trigger Word(new_, a)} :: Inside(s, a) ==> Word(new_, a) == Word(old_, a)
  }

  lemma OtherStack(l: Layout, u: nat, t: nat, old_: map<nat, nat>, new_: map<nat, nat>)
    requires LayoutOk(l) && u < TASK_MAX && t < TASK_MAX && u != t && Confined(l.stacks[u], old_, new_)
    ensures SameStack(l.stacks[t], old_, new_)
  {
    forall a | Inside(l.stacks[t], a) ensures Word(new_, a) == Word(old_, a) {
      assert l.stacks[u] == l.stacks[u];
    }
  }

  /** No step of another task touches the stack of a suspended task, or moves its stack pointer. */
  lemma StackKept(l: Layout, m: Machine, a: Action, t: nat)
    requires Inv(l, m) && Permitted(l, m, a) && t < m.count && t != m.cur
    ensures SameStack(l.stacks[t], m.mem, Next(l, m, a).mem)
    ensures Next(l, m, a).tasks[t].rsp == m.tasks[t].rsp
  {
    match a
    case Work(cpu, mem) => OtherStack(l, m.cur, t, m.mem, mem);
    case DoYield =>
      RoundRobin(m);
      PushesConfined(l, m);
      OtherStack(l, m.cur, t, m.mem, Pushed(m.mem, m.cpu));
    case DoCreate(entry) =>
      if m.count < TASK_MAX {
        FreshConfined(l, m.mem, m.count, entry);
        OtherStack(l, m.count, t, m.mem, FreshStack(m.mem, Top(l.stacks[m.count]), l.trampoline, entry));
      }
  }

  lemma {:induction false} StackKeptOverRun(l: Layout, m: Machine, acts: seq<Action>, t: nat)
    requires Inv(l, m) && t < m.count && RunsWithout(l, m, acts, t)
    ensures SameStack(l.stacks[t], m.mem, After(l, m, acts, t).mem)
    decreases |acts|
  {
    if acts != [] {
      NextInv(l, m, acts[0]);
      StackKept(l, m, acts[0], t);
      var m' := Next(l, m, acts[0]);
      StackKeptOverRun(l, m', acts[1..], t);
      forall a | Inside(l.stacks[t], a) ensures Word(After(l, m, acts, t).mem, a) == Word(m.mem, a) {
        assert Word(m'.mem, a) == Word(m.mem, a);
      }
    }
  }

  /** `task_trampoline` up to its call: the popped entry pointer and the stack pointer at the call. */
  function Trampoline(m: Machine): (nat, nat) {
    (Word(m.mem, m.cpu.rsp), m.cpu.rsp + 8)
  }

  /** The first switch to a fresh task arrives at the trampoline with zeroed registers. */
  lemma FreshContext(l: Layout, m: Machine, entry: nat)
    requires Inv(l, m) && entry != 0 && m.count < TASK_MAX
    ensures var (m', pid) := Create(l, m, entry);
            var top := l.stacks[m.count].hi;
            && pid == m.count && m'.count == m.count + 1
            && Context(m', m.count) == Cpu(0, 0, 0, 0, 0, 0, top - 8, l.trampoline)
            && Word(m'.mem, top - 8) == entry && top % 16 == 0 && l.stacks[m.count].lo + 64 <= top
  {
    FreshConfined(l, m.mem, m.count, entry);
    assert l.stacks[m.count].lo % 16 == 0;
  }

  /** Whatever happens between its creation and its first turn, a new task starts in the trampoline,
      which calls the entry point it was created with, on a stack aligned to 16 bytes. */
  lemma FirstTurn(l: Layout, m: Machine, entry: nat, acts: seq<Action>)
    requires Inv(l, m) && entry != 0 && m.count < TASK_MAX
    requires var m1 := Create(l, m, entry).0; Inv(l, m1) && RunsWithout(l, m1, acts, m.count)
    ensures var m1 := Create(l, m, entry).0;
            var back := After(l, m1, acts, m.count);
            RoomToSwitch(l, back) && back.count > 1 && Successor(back.cur, back.count) == m.count ==>
              var run := Yield(back);
              && run.cur == m.count && run.cpu.rip == l.trampoline
              && Trampoline(run) == (entry, l.stacks[m.count].hi) && Trampoline(run).1 % 16 == 0
  {
    hide Create, Yield, Resumed;
    var m1 := Create(l, m, entry).0;
    FreshContext(l, m, entry);
    ContextKeptOverRun(l, m1, acts, m.count);
    StackKeptOverRun(l, m1, acts, m.count);
    var back := After(l, m1, acts, m.count);
    if RoomToSwitch(l, back) && back.count > 1 && Successor(back.cur, back.count) == m.count {
      YieldSwitches(l, back);
      StackKept(l, back, DoYield, m.count);
      var top := l.stacks[m.count].hi;
      assert Inside(l.stacks[m.count], top - 8);
      assert Word(back.mem, top - 8) == Word(m1.mem, top - 8);
      assert Word(Yield(back).mem, top - 8) == Word(back.mem, top - 8);
    }
  }

  // ----- fairness -----

  /** `turns` as whole laps around `count` tasks and a remainder. */
  datatype Lap = Lap(whole: nat, rest: nat)

  function LapOf(turns: nat, count: nat): (p: Lap)
    requires 0 < count
    ensures p.rest < count && p.whole * count + p.rest == turns
  {
    if turns == 0 then Lap(0, 0) else
    var p := LapOf(turns - 1, count);
    assert (p.whole + 1) * count == p.whole * count + count;
    if p.rest + 1 == count then Lap(p.whole + 1, 0) else Lap(p.whole, p.rest + 1)
  }

  /** How many turns after `from` the task `t` comes. */
  function Distance(from: nat, t: nat, count: nat): (d: nat)
    requires from < count && t < count
    ensures d < count
  {
    if t >= from then t - from else t + count - from
  }

  function Gain(from: nat, t: nat, count: nat, turns: nat): nat
    requires from < count && t < count
  {
    var p := LapOf(turns, count);
    p.whole + if Distance(from, t, count) < p.rest then 1 else 0
  }

  /** `m` is `m0` after `turns` turns: the current task and the ticks of all tasks are determined. */
  ghost predicate Ahead(m0: Machine, m: Machine, turns: nat) {
    && StatesOk(m0) && StatesOk(m) && m.count == m0.count > 1
    && Distance(m0.cur, m.cur, m.count) == LapOf(turns, m.count).rest
    && forall t {:trigger m.tasks[t]} :: 0 <= t < m.count ==>
         m.tasks[t].ticks == m0.tasks[t].ticks + Gain(m0.cur, t, m.count, turns)
  }

  lemma AheadStep(l: Layout, m0: Machine, m: Machine, turns: nat)
    requires Ahead(m0, m, turns) && Inv(l, m) && RoomToSwitch(l, m)
    ensures Ahead(m0, Yield(m), turns + 1)
  {
    YieldInv(l, m);
    YieldSwitches(l, m);
    var m' := Yield(m);
    var n, p := m.count, LapOf(turns, m.count);
    forall t | 0 <= t < n ensures m'.tasks[t].ticks == m0.tasks[t].ticks + Gain(m0.cur, t, n, turns + 1) {
      assert Distance(m0.cur, t, n) == p.rest <==> t == m.cur;
      assert m.tasks[t].ticks == m0.tasks[t].ticks + Gain(m0.cur, t, n, turns);
    }
  }

  /** A run of work and turns, without creation, that contains `turns` turns. */
  ghost predicate Window(l: Layout, m: Machine, acts: seq<Action>, turns: nat)
    requires Inv(l, m)
    decreases |acts|
  {
    if acts == [] then turns == 0
    else
      && Permitted(l, m, acts[0]) && !acts[0].DoCreate? && (acts[0].DoYield? ==> turns > 0)
      && (NextInv(l, m, acts[0]);
          Window(l, Next(l, m, acts[0]), acts[1..], if acts[0].DoYield? then turns - 1 else turns))
  }

  function Finally(l: Layout, m: Machine, acts: seq<Action>, turns: nat): (m': Machine)
    requires Inv(l, m) && Window(l, m, acts, turns)
    ensures Inv(l, m')
    decreases |acts|
  {
    if acts == [] then m else
    NextInv(l, m, acts[0]);
    Finally(l, Next(l, m, acts[0]), acts[1..], if acts[0].DoYield? then turns - 1 else turns)
  }

  lemma {:induction false} AheadOverRun(l: Layout, m0: Machine, m: Machine, done: nat, acts: seq<Action>, turns: nat)
    requires Inv(l, m) && Window(l, m, acts, turns) && Ahead(m0, m, done)
    ensures Ahead(m0, Finally(l, m, acts, turns), done + turns)
    decreases |acts|
  {
    hide Yield, Ahead, LayoutOk, StatesOk;
    if acts != [] {
      var a := acts[0];
      var m' := Next(l, m, a);
      NextInv(l, m, a);
      if a.DoYield? {
        AheadStep(l, m0, m, done);
        AheadOverRun(l, m0, m', done + 1, acts[1..], turns - 1);
      } else {
        AheadWork(l, m0, m, a, done);
        AheadOverRun(l, m0, m', done, acts[1..], turns);
      }
    }
  }

  lemma AheadStart(m: Machine)
    requires StatesOk(m) && m.count > 1
    ensures Ahead(m, m, 0)
  {
    assert LapOf(0, m.count) == Lap(0, 0);
    forall t | 0 <= t < m.count ensures Gain(m.cur, t, m.count, 0) == 0 {}
  }

  lemma AheadWork(l: Layout, m0: Machine, m: Machine, a: Action, turns: nat)
    requires Ahead(m0, m, turns) && Inv(l, m) && Permitted(l, m, a) && a.Work?
    ensures Ahead(m0, Next(l, m, a), turns)
  {
    var m' := Next(l, m, a);
    forall t | 0 <= t < m'.count ensures m'.tasks[t].ticks == m0.tasks[t].ticks + Gain(m0.cur, t, m.count, turns) {
      assert m'.tasks[t] == m.tasks[t];
    }
  }

  /** In any window without creation the tick gains of two tasks differ by at most one, and a window
      of as many turns as tasks gives every task exactly one turn and ends where it began. */
  lemma Fairness(l: Layout, m: Machine, acts: seq<Action>, turns: nat, t: nat, u: nat)
    requires Inv(l, m) && m.count > 1 && Window(l, m, acts, turns) && t < m.count && u < m.count
    ensures var m' := Finally(l, m, acts, turns);
            var a, b := m'.tasks[t].ticks - m.tasks[t].ticks, m'.tasks[u].ticks - m.tasks[u].ticks;
            && -1 <= a - b <= 1
            && (turns == m.count ==> a == 1 && m'.cur == m.cur)
  {
    AheadStart(m);
    AheadOverRun(l, m, m, 0, acts, turns);
    var m' := Finally(l, m, acts, turns);
    assert m'.tasks[t].ticks == m.tasks[t].ticks + Gain(m.cur, t, m.count, turns);
    assert m'.tasks[u].ticks == m.tasks[u].ticks + Gain(m.cur, u, m.count, turns);
    OneLap(m.count, m.count);
  }

  /** `k <= count` turns are `k` turns of the first lap, or exactly one lap. */
  lemma {:induction false} OneLap(k: nat, count: nat)
    requires 0 < count && k <= count
    ensures LapOf(k, count) == if k == count then Lap(1, 0) else Lap(0, k)
  {
    if k > 0 { OneLap(k - 1, count); }
  }
}
