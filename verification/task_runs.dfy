/** Whole runs of the running tasks: they compute, they yield, and the round robin and the context
    switch together bring every awake task back as it left. */
module TaskRuns {
  import opened ContextSwitch
  import S = Schedulers
  import J = Tasks

  /** The task table and the machine. */
  datatype Kernel = Kernel(table: S.Table, sys: System)

  datatype Event =
    /** The running task computes, without writing other tasks' stacks. */
    | Work(regs: Regs, mem: seq<nat>)
    /** The running task yields. */
    | Yield

  ghost predicate Coherent(k: Kernel) {
    && k.table.OneRunning() && WellFormed(k.sys)
    && |k.table.tasks| == |k.sys.stacks| && k.table.current == k.sys.current
  }

  /** A task that yields has room for a frame on its own stack. */
  ghost predicate CanDo(k: Kernel, e: Event)
    requires Coherent(k)
  {
    match e
    case Work(regs, mem) => Enabled(k.sys, Compute(regs, mem))
    case Yield =>
      k.sys.stacks[k.sys.current].lo + FRAME <= k.sys.regs.rsp <= k.sys.stacks[k.sys.current].hi
  }

  ghost function Do(k: Kernel, e: Event): Kernel
    requires Coherent(k) && CanDo(k, e)
  {
    match e
    case Work(regs, mem) => k.(sys := Next(k.sys, Compute(regs, mem)))
    case Yield =>
      var t := S.Yielded(k.table);
      Kernel(t, if t.current == k.table.current then k.sys else Next(k.sys, Switch(t.current)))
  }

  lemma DoCoherent(k: Kernel, e: Event)
    requires Coherent(k) && CanDo(k, e)
    ensures Coherent(Do(k, e))
    ensures Do(k, e).table == if e.Yield? then S.Yielded(k.table) else k.table
  {
    hide S.Yielded;
    hide Suspend;
    hide Resume;
    match e {
      case Work(regs, mem) => NextWellFormed(k.sys, Compute(regs, mem));
      case Yield =>
        var t := S.Yielded(k.table);
        if t.current != k.table.current {
          NextWellFormed(k.sys, Switch(t.current));
        }
    }
  }

  /** A call of yield_now with its context switch is the Yield event of these runs. */
  method YieldIsAnEvent(cpu: Cpu, sched: S.Scheduler, ghost stacks: seq<Stack>) returns (switched: bool)
    requires J.Linked(cpu, sched, stacks) && sched.running
    requires CanDo(Kernel(sched.Now(), J.Joint(cpu, sched, stacks)), Yield)
    modifies cpu, cpu.mem, sched
    ensures J.Linked(cpu, sched, stacks) && sched.running
    ensures Kernel(sched.Now(), J.Joint(cpu, sched, stacks))
         == Do(old(Kernel(sched.Now(), J.Joint(cpu, sched, stacks))), Yield)
  {
    hide S.Yielded;
    hide Suspend;
    hide Resume;
    switched := J.Yield(cpu, sched, stacks);
  }

  ghost predicate IsTaskRun(ks: seq<Kernel>, es: seq<Event>) {
    && |ks| == |es| + 1 && Coherent(ks[0])
    && forall i :: 0 <= i < |es| && Coherent(ks[i]) ==> CanDo(ks[i], es[i]) && ks[i + 1] == Do(ks[i], es[i])
  }

  function Yields(es: seq<Event>): nat {
    if es == [] then 0 else Yields(es[..|es| - 1]) + (if es[|es| - 1].Yield? then 1 else 0)
  }

  lemma YieldsNext(es: seq<Event>, n: nat)
    requires n < |es|
    ensures Yields(es[..n + 1]) == Yields(es[..n]) + (if es[n].Yield? then 1 else 0)
  {
    assert es[..n + 1][..n] == es[..n];
  }

  lemma {:induction false} YieldsMonotone(es: seq<Event>, a: nat, b: nat)
    requires a <= b <= |es|
    ensures Yields(es[..a]) <= Yields(es[..b])
    ensures a < b && es[a].Yield? ==> Yields(es[..a]) < Yields(es[..b])
    decreases b
  {
    if a < b {
      YieldsMonotone(es, a, b - 1);
      YieldsNext(es, b - 1);
    }
  }

  /** Position of the n-th yield. */
  function NthYield(es: seq<Event>, n: nat): (k: nat)
    requires 1 <= n <= Yields(es)
    ensures k < |es| && es[k].Yield? && Yields(es[..k]) == n - 1
  {
    var m := |es| - 1;
    if Yields(es[..m]) >= n then
      var k := NthYield(es[..m], n);
      assert es[..m][..k] == es[..k];
      k
    else m
  }

  /** The table depends on the number of yields alone. */
  lemma {:induction false} TableAfter(ks: seq<Kernel>, es: seq<Event>, n: nat)
    requires IsTaskRun(ks, es) && n <= |es|
    ensures Coherent(ks[n]) && ks[n].table == S.After(ks[0].table, Yields(es[..n]))
  {
    hide Do;
    hide CanDo;
    hide S.Yielded;
    if n > 0 {
      TableAfter(ks, es, n - 1);
      DoCoherent(ks[n - 1], es[n - 1]);
      YieldsNext(es, n - 1);
    }
  }

  /** As long as it does not become current, a suspended task stays suspended with the same registers. */
  lemma {:induction false} StaysAway(ks: seq<Kernel>, es: seq<Event>, a: nat, b: nat, i: nat, r: Regs)
    requires IsTaskRun(ks, es) && a <= b <= |es| && Suspended(ks[a].sys, i, r)
    requires forall c :: a < c <= b ==> ks[c].table.current != i
    ensures Suspended(ks[b].sys, i, r)
    decreases b
  {
    hide Do;
    hide CanDo;
    hide Coherent;
    hide Suspended;
    if a < b {
      var c := b - 1;
      StaysAway(ks, es, a, c, i, r);
      TableAfter(ks, es, c);
      assert ks[c + 1] == Do(ks[c], es[c]);
      EventSpares(ks[c], es[c], i, r);
    }
  }

  lemma EventSpares(k: Kernel, e: Event, i: nat, r: Regs)
    requires Coherent(k) && CanDo(k, e) && Suspended(k.sys, i, r) && Do(k, e).table.current != i
    ensures Suspended(Do(k, e).sys, i, r)
  {
    hide S.Yielded;
    hide Suspended;
    hide Next;
    match e {
      case Work(regs, mem) => StaysSuspended(k.sys, Compute(regs, mem), i, r);
      case Yield =>
        var t := S.Yielded(k.table);
        if t.current != k.table.current {
          StaysSuspended(k.sys, Switch(t.current), i, r);
        }
    }
  }

  /** The yield at `at` makes task i current, and no other one in the run does. */
  ghost predicate OnlyTurn(ks: seq<Kernel>, es: seq<Event>, i: nat, at: nat)
    requires |ks| == |es| + 1
  {
    && at < |es| && es[at].Yield? && ks[at + 1].table.current == i
    && forall k :: 0 <= k < |es| && es[k].Yield? && ks[k + 1].table.current == i ==> k == at
  }

  lemma NthTable(ks: seq<Kernel>, es: seq<Event>, n: nat)
    requires IsTaskRun(ks, es) && 1 <= n <= Yields(es)
    ensures Coherent(ks[NthYield(es, n) + 1]) && ks[NthYield(es, n) + 1].table == S.After(ks[0].table, n)
  {
    hide Do;
    hide CanDo;
    hide Coherent;
    hide S.After;
    hide Yields;
    YieldsNext(es, NthYield(es, n));
    TableAfter(ks, es, NthYield(es, n) + 1);
  }

  lemma TurnIsOnly(ks: seq<Kernel>, es: seq<Event>, i: nat, n: nat)
    requires IsTaskRun(ks, es) && S.TurnOf(ks[0].table, Yields(es), i, n)
    ensures OnlyTurn(ks, es, i, NthYield(es, n))
  {
    hide S.After;
    hide Do;
    hide CanDo;
    hide Coherent;
    var at := NthYield(es, n);
    NthTable(ks, es, n);
    forall k | 0 <= k < |es| && es[k].Yield? && ks[k + 1].table.current == i
      ensures k == at
    {
      YieldsNext(es, k);
      TableAfter(ks, es, k + 1);
      YieldsBound(es, k + 1);
      if k < at {
        YieldsMonotone(es, k, at);
      } else if at < k {
        YieldsMonotone(es, at, k);
      }
    }
  }

  lemma NotBefore(ks: seq<Kernel>, es: seq<Event>, i: nat, n: nat, c: nat)
    requires IsTaskRun(ks, es) && S.TurnOf(ks[0].table, Yields(es), i, n)
    requires c <= NthYield(es, n) && (Yields(es[..c]) == 0 ==> ks[0].table.current != i)
    ensures ks[c].table.current != i
  {
    hide S.After;
    hide Do;
    hide CanDo;
    TableAfter(ks, es, c);
    YieldsMonotone(es, c, NthYield(es, n));
    NoYieldYet(ks[0].table);
  }

  lemma YieldsBound(es: seq<Event>, n: nat)
    requires n <= |es|
    ensures Yields(es[..n]) <= Yields(es)
  {
    YieldsMonotone(es, n, |es|);
    assert es[..|es|] == es;
  }

  lemma NoYieldYet(t: S.Table)
    requires t.OneRunning()
    ensures S.After(t, 0) == t
  {
  }

  /** The yield that makes a suspended task current resumes it. */
  lemma TurnResumes(k: Kernel, i: nat, r: Regs)
    requires Coherent(k) && CanDo(k, Yield) && Suspended(k.sys, i, r) && Do(k, Yield).table.current == i
    ensures Do(k, Yield).sys.regs == r
  {
    hide S.Yielded;
    hide Suspend;
    FrameSurvivesSwitch(k.sys, i, r);
  }

  /** In any run with as many yields as there are awake tasks, every awake task but the one running at
      first is resumed exactly once, with the stack pointer, callee-saved registers and address it was
      suspended with. */
  lemma EveryAwakeTaskResumes(ks: seq<Kernel>, es: seq<Event>, i: nat) returns (at: nat)
    requires IsTaskRun(ks, es) && i < |ks[0].table.tasks| && ks[0].table.tasks[i].Awake()
    requires Yields(es) == S.Rank(ks[0].table.tasks, |ks[0].table.tasks|)
    requires i != ks[0].table.current
    ensures OnlyTurn(ks, es, i, at)
    ensures ks[at + 1].sys.regs == Resume(ks[0].sys.mem, ks[0].sys.contexts[i])
  {
    hide Do;
    hide CanDo;
    hide Resume;
    hide S.TurnOf;
    hide Yields;
    hide S.Rank;
    var r := Resume(ks[0].sys.mem, ks[0].sys.contexts[i]);
    var n := S.RoundRobinIsFair(ks[0].table, i);
    TurnMeans(ks[0].table, Yields(es), i, n);
    at := NthYield(es, n);
    TurnIsOnly(ks, es, i, n);
    ResumedAt(ks, es, 0, i, n, r);
  }

  lemma TurnMeans(t: S.Table, m: nat, i: nat, n: nat)
    requires t.OneRunning() && S.TurnOf(t, m, i, n)
    ensures 1 <= n <= m
  {
  }

  /** A task suspended at `from`, whose turn comes later, is resumed then. */
  lemma ResumedAt(ks: seq<Kernel>, es: seq<Event>, from: nat, i: nat, n: nat, r: Regs)
    requires IsTaskRun(ks, es) && S.TurnOf(ks[0].table, Yields(es), i, n) && from <= NthYield(es, n)
    requires Suspended(ks[from].sys, i, r) && (Yields(es[..from]) == 0 ==> ks[0].table.current != i)
    ensures ks[NthYield(es, n) + 1].sys.regs == r
  {
    hide Do;
    hide CanDo;
    hide Suspended;
    hide S.TurnOf;
    TurnMeans(ks[0].table, Yields(es), i, n);
    var at := NthYield(es, n);
    forall c | from < c <= at
      ensures ks[c].table.current != i
    {
      YieldsMonotone(es, from, c);
      NotBefore(ks, es, i, n, c);
    }
    StaysAway(ks, es, from, at, i, r);
    TableAfter(ks, es, at);
    TurnIsOnly(ks, es, i, n);
    TurnResumes(ks[at], i, r);
  }

  /** And the task running at first, if another one is awake, is resumed by the last of these yields
      alone, with what it had when it yielded first. */
  lemma FirstTaskReturns(ks: seq<Kernel>, es: seq<Event>) returns (left: nat, at: nat)
    requires IsTaskRun(ks, es)
    requires Yields(es) == S.Rank(ks[0].table.tasks, |ks[0].table.tasks|) >= 2
    ensures left < at < |es| && es[left].Yield? && Yields(es[..left]) == 0
    ensures OnlyTurn(ks, es, ks[0].table.current, at) && Yields(es[..at]) + 1 == Yields(es)
    ensures ks[left].table == ks[0].table && ks[at + 1].sys.regs == ks[left].sys.regs
  {
    hide Do;
    hide CanDo;
    hide S.TurnOf;
    hide Suspended;
    hide S.Rank;
    var i := ks[0].table.current;
    var n := S.RoundRobinIsFair(ks[0].table, i);
    TurnMeans(ks[0].table, Yields(es), i, n);
    left, at := NthYield(es, 1), NthYield(es, n);
    TurnIsOnly(ks, es, i, n);
    TableAfter(ks, es, left);
    NoYieldYet(ks[0].table);
    YieldsNext(es, left);
    if at <= left {
      YieldsMonotone(es, at, left);
    }
    NotBefore(ks, es, i, n, left + 1);
    LeavesSuspended(ks[left]);
    ResumedAt(ks, es, left + 1, i, n, ks[left].sys.regs);
  }

  /** A task that yields to another one is suspended with the registers it had. */
  lemma LeavesSuspended(k: Kernel)
    requires Coherent(k) && CanDo(k, Yield) && Do(k, Yield).table.current != k.table.current
    ensures Suspended(Do(k, Yield).sys, k.table.current, k.sys.regs)
  {
    hide S.Yielded;
    NextWellFormed(k.sys, Switch(S.Yielded(k.table).current));
  }
}
