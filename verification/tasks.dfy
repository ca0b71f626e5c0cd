/** Scheduler and machine together: the context that is switched to is that of the task the
    scheduler picked, and every kernel call is one action of the machine's runs. */
module Tasks {
  import opened Prelude
  import opened Bits
  import opened ContextSwitch
  import S = Schedulers

  /** The joint state; entry i of `contexts` and `stacks` belongs to entry i of the task table. */
  ghost function Joint(cpu: Cpu, sched: S.Scheduler, stacks: seq<Stack>): System
    reads cpu, cpu.mem, sched
  {
    System(cpu.mem[..], cpu.Registers(), cpu.contexts, stacks, sched.current)
  }

  /** Before the scheduler runs, every task in the table is suspended. */
  ghost predicate Parked(s: System) {
    && |s.contexts| == |s.stacks|
    && (forall i :: 0 <= i < |s.stacks| ==>
          s.stacks[i].lo <= s.contexts[i] && s.contexts[i] + FRAME <= s.stacks[i].hi <= |s.mem|)
    && (forall i, j :: 0 <= i < j < |s.stacks| ==> Disjoint(s.stacks[i], s.stacks[j]))
  }

  ghost predicate Linked(cpu: Cpu, sched: S.Scheduler, stacks: seq<Stack>)
    reads cpu, cpu.mem, sched
  {
    && sched.Valid() && |sched.tasks| == |stacks|
    && (if sched.running then WellFormed(Joint(cpu, sched, stacks)) else Parked(Joint(cpu, sched, stacks)))
  }

  /** A stack of its own for one more task. */
  ghost predicate Unused(stack: Stack, stacks: seq<Stack>) {
    forall i :: 0 <= i < |stacks| ==> Disjoint(stacks[i], stack)
  }

  /** yield_now with its context switch: the machine switches to exactly the task the round robin
      chose, or nothing at all changes. */
  method Yield(cpu: Cpu, sched: S.Scheduler, ghost stacks: seq<Stack>) returns (switched: bool)
    requires Linked(cpu, sched, stacks)
    requires sched.running ==> stacks[sched.current].lo + FRAME <= cpu.rsp <= stacks[sched.current].hi
    modifies cpu, cpu.mem, sched
    ensures Linked(cpu, sched, stacks) && sched.running == old(sched.running)
    ensures sched.Now() == if sched.running then S.Yielded(old(sched.Now())) else old(sched.Now())
    ensures switched <==> sched.current != old(sched.current)
    ensures Joint(cpu, sched, stacks) ==
            if switched then Next(old(Joint(cpu, sched, stacks)), Switch(sched.current))
            else old(Joint(cpu, sched, stacks))
  {
    ghost var s := Joint(cpu, sched, stacks);
    var oldIdx := sched.current;
    switched := sched.YieldNow();
    hide S.Yielded;
    hide Suspend;
    hide Resume;
    if switched {
      NextWellFormed(s, Switch(sched.current));
      cpu.SwitchContext(oldIdx, sched.current);
      assert Joint(cpu, sched, stacks) == Next(s, Switch(sched.current));
    }
  }

  /** spawn: the new task goes to the end of the table with its initial frame on its own stack. */
  method Spawn(cpu: Cpu, sched: S.Scheduler, base: nat, entry: nat, windowId: Option<nat>, ghost stacks: seq<Stack>)
    returns (id: nat)
    requires Linked(cpu, sched, stacks)
    requires base + STACK_BYTES < U64 && StackAt(base).hi <= cpu.mem.Length && Unused(StackAt(base), stacks)
    modifies cpu`contexts, cpu.mem, sched
    ensures Linked(cpu, sched, stacks + [StackAt(base)]) && sched.running == old(sched.running)
    ensures id == old(sched.nextId) && sched.tasks == old(sched.tasks) + [S.Task(id, S.Ready, windowId)]
    ensures sched.running ==>
              && Enabled(old(Joint(cpu, sched, stacks)), ContextSwitch.Spawn(StackAt(base), entry))
              && Joint(cpu, sched, stacks + [StackAt(base)])
                 == Next(old(Joint(cpu, sched, stacks)), ContextSwitch.Spawn(StackAt(base), entry))
  {
    hide StackAt;
    hide Suspend;
    hide Unused;
    hide WellFormed;
    hide Parked;
    hide Enabled;
    hide Added;
    hide Next;
    StackFits(base);
    ghost var s, stack := Joint(cpu, sched, stacks), StackAt(base);
    AddedIsSpawned(s, stack, entry);
    AddedStaysParked(s, stack, entry);
    id := Add(cpu, sched, base, entry, windowId, stacks);
  }

  method Add(cpu: Cpu, sched: S.Scheduler, base: nat, entry: nat, windowId: Option<nat>, ghost stacks: seq<Stack>)
    returns (id: nat)
    requires sched.Valid() && base + STACK_BYTES < U64 && FRAME <= StackAt(base).hi <= cpu.mem.Length
    modifies cpu`contexts, cpu.mem, sched
    ensures sched.Valid() && sched.running == old(sched.running)
    ensures id == old(sched.nextId) && sched.tasks == old(sched.tasks) + [S.Task(id, S.Ready, windowId)]
    ensures Joint(cpu, sched, stacks + [StackAt(base)]) == Added(old(Joint(cpu, sched, stacks)), StackAt(base), entry)
  {
    hide StackAt;
    hide Suspend;
    hide Resume;
    id := sched.Spawn(windowId);
    var _ := cpu.SpawnFrame(base, entry);
  }

  /** The system with one more task, suspended in front of its entry. */
  ghost function Added(s: System, stack: Stack, entry: nat): System
    requires FRAME <= stack.hi <= |s.mem|
  {
    s.(mem := Suspend(s.mem, Fresh(stack, entry)),
       contexts := s.contexts + [stack.hi - FRAME], stacks := s.stacks + [stack])
  }

  lemma AddedStaysParked(s: System, stack: Stack, entry: nat)
    requires stack.lo + FRAME <= stack.hi <= |s.mem| && Unused(stack, s.stacks)
    ensures Parked(s) ==> Parked(Added(s, stack, entry))
  {
    hide Suspend;
    hide Fresh;
  }

  lemma AddedIsSpawned(s: System, stack: Stack, entry: nat)
    requires stack.lo + FRAME <= stack.hi <= |s.mem| && Unused(stack, s.stacks)
    ensures WellFormed(s) ==>
              && Enabled(s, ContextSwitch.Spawn(stack, entry))
              && WellFormed(Added(s, stack, entry))
              && Added(s, stack, entry) == Next(s, ContextSwitch.Spawn(stack, entry))
  {
    hide Suspend;
    hide Fresh;
    if WellFormed(s) {
      NextWellFormed(s, ContextSwitch.Spawn(stack, entry));
    }
  }

  /** run: the calling context becomes task 0 on the stack it is on. The table shifts by one, and every
      spawned task keeps its own context. */
  method Start(cpu: Cpu, sched: S.Scheduler, ghost own: Stack, ghost stacks: seq<Stack>)
    requires Linked(cpu, sched, stacks) && !sched.running
    requires own.lo <= own.hi <= cpu.mem.Length && Unused(own, stacks)
    modifies cpu`contexts, sched
    ensures Linked(cpu, sched, [own] + stacks) && sched.running && sched.current == 0
    ensures |sched.tasks| == |old(sched.tasks)| + 1
    ensures forall i :: 0 <= i < |stacks| ==>
              Suspended(Joint(cpu, sched, [own] + stacks), i + 1, Resume(old(cpu.mem[..]), old(cpu.contexts)[i]))
  {
    hide Resume;
    sched.RegisterIdle();
    cpu.contexts := [0] + cpu.contexts;
  }
}
