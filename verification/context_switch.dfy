/** switch_context and the initial frame of a task, on a small word-addressed machine. Stack
    addresses count 8-byte words. */
module ContextSwitch {
  import opened Bits

  const STACK_BYTES := 0x1_0000
  /** Words switch_context keeps on a suspended stack: six registers and the return address. */
  const FRAME := 7

  /** The stack pointer, the callee-saved registers and the address execution continues at. */
  datatype Regs = Regs(rsp: nat, rbp: nat, rbx: nat, r12: nat, r13: nat, r14: nat, r15: nat, rip: nat)

  /** Memory after the task's `call` and the six pushes. */
  function Suspend(mem: seq<nat>, r: Regs): (mem': seq<nat>)
    requires FRAME <= r.rsp <= |mem|
    ensures |mem'| == |mem|
    ensures forall a :: 0 <= a < |mem| && !(r.rsp - FRAME <= a < r.rsp) ==> mem'[a] == mem[a]
    ensures Resume(mem', r.rsp - FRAME) == r
  {
    mem[r.rsp - 1 := r.rip][r.rsp - 2 := r.rbp][r.rsp - 3 := r.rbx][r.rsp - 4 := r.r12]
       [r.rsp - 5 := r.r13][r.rsp - 6 := r.r14][r.rsp - 7 := r.r15]
  }

  /** From the top of the frame down: the return address, rbp, rbx, r12, r13, r14, r15. */
  lemma FrameLayout(mem: seq<nat>, r: Regs)
    requires FRAME <= r.rsp <= |mem|
    ensures Suspend(mem, r)[r.rsp - 7..r.rsp] == [r.r15, r.r14, r.r13, r.r12, r.rbx, r.rbp, r.rip]
  {
  }

  /** Registers after the six pops and `ret` from stack pointer `sp`. */
  function Resume(mem: seq<nat>, sp: nat): Regs
    requires sp + FRAME <= |mem|
  {
    Regs(sp + FRAME, mem[sp + 5], mem[sp + 4], mem[sp + 3], mem[sp + 2], mem[sp + 1], mem[sp], mem[sp + 6])
  }

  class Cpu {
    const mem: array<nat>
    var rsp: nat
    var rbp: nat
    var rbx: nat
    var r12: nat
    var r13: nat
    var r14: nat
    var r15: nat
    var rip: nat
    /** The saved stack pointer of each task. */
    var contexts: seq<nat>

    function Registers(): Regs
      reads this
    {
      Regs(rsp, rbp, rbx, r12, r13, r14, r15, rip)
    }

    constructor (words: nat)
      ensures mem.Length == words && contexts == []
    {
      mem := new nat[words](_ => 0);
      rsp, rbp, rbx, r12, r13, r14, r15, rip := 0, 0, 0, 0, 0, 0, 0, 0;
      contexts := [];
    }

    method Push(v: nat)
      requires 0 < rsp <= mem.Length
      modifies this`rsp, mem
      ensures rsp == old(rsp) - 1 && mem[..] == old(mem[..])[rsp := v]
    {
      rsp := rsp - 1;
      mem[rsp] := v;
    }

    method Pop() returns (v: nat)
      requires rsp < mem.Length
      modifies this`rsp
      ensures rsp == old(rsp) + 1 && v == mem[old(rsp)]
    {
      v := mem[rsp];
      rsp := rsp + 1;
    }

    /** The return address pushed by the call, then the six pushes. */
    method PushFrame()
      requires FRAME <= rsp <= mem.Length
      modifies this`rsp, mem
      ensures rsp == old(rsp) - FRAME && mem[..] == Suspend(old(mem[..]), old(Registers()))
    {
      Push(rip);
      Push(rbp);
      Push(rbx);
      Push(r12);
      Push(r13);
      Push(r14);
      Push(r15);
    }

    /** The six pops, then `ret`. */
    method PopFrame()
      requires rsp + FRAME <= mem.Length
      modifies this`rsp, this`rbp, this`rbx, this`r12, this`r13, this`r14, this`r15, this`rip
      ensures Registers() == Resume(mem[..], old(rsp))
    {
      r15 := Pop();
      r14 := Pop();
      r13 := Pop();
      r12 := Pop();
      rbx := Pop();
      rbp := Pop();
      rip := Pop();
    }

    /** Called by a task with registers Registers(), `rip` being where it is to continue. */
    method SwitchContext(outgoing: nat, incoming: nat)
      requires outgoing < |contexts| && incoming < |contexts| && outgoing != incoming
      requires FRAME <= rsp <= mem.Length && contexts[incoming] + FRAME <= mem.Length
      modifies this, mem
      ensures mem[..] == Suspend(old(mem[..]), old(Registers()))
      ensures contexts == old(contexts)[outgoing := old(rsp) - FRAME]
      ensures Registers() == Resume(mem[..], old(contexts)[incoming])
    {
      hide Suspend;
      hide Resume;
      PushFrame();
      contexts := contexts[outgoing := rsp];
      rsp := contexts[incoming];
      PopFrame();
    }

    /** Builds the frame a new task starts from, below the 16-byte aligned top of its stack. */
    method SpawnFrame(base: nat, entry: nat) returns (task: nat)
      requires base + STACK_BYTES < U64 && StackAt(base).hi <= mem.Length
      modifies this`contexts, mem
      ensures task == |old(contexts)| && contexts == old(contexts) + [StackAt(base).hi - FRAME]
      ensures FRAME <= StackAt(base).hi
      ensures mem[..] == Suspend(old(mem[..]), Regs(StackAt(base).hi, 0, 0, 0, 0, 0, 0, entry))
    {
      hide AlignedTop;
      hide StackAt;
      hide Suspend;
      StackFits(base);
      var stackTop := AlignedTop(base);
      var sp := WriteFrame(stackTop / 8, entry);
      task := |contexts|;
      contexts := contexts + [sp];
    }

    /** The entry as return address, then zeros for the six registers, growing down from `top`. */
    method WriteFrame(top: nat, entry: nat) returns (sp: nat)
      requires FRAME <= top <= mem.Length
      modifies mem
      ensures sp == top - FRAME && mem[..] == Suspend(old(mem[..]), Regs(top, 0, 0, 0, 0, 0, 0, entry))
    {
      sp := top - 1;
      mem[sp] := entry;
      sp := sp - 1;
      mem[sp] := 0; // rbp
      sp := sp - 1;
      mem[sp] := 0; // rbx
      sp := sp - 1;
      mem[sp] := 0; // r12
      sp := sp - 1;
      mem[sp] := 0; // r13
      sp := sp - 1;
      mem[sp] := 0; // r14
      sp := sp - 1;
      mem[sp] := 0; // r15
    }
  }

  /** A stack of words lo, ..., hi - 1. */
  datatype Stack = Stack(lo: nat, hi: nat) {
    predicate Holds(a: int) {
      lo <= a < hi
    }
  }

  /** The end of a task's byte block at `base`, masked down to 16 bytes. */
  function AlignedTop(base: nat): nat
    requires base + STACK_BYTES < U64
  {
    WordSize();
    And(base + STACK_BYTES, Not(0xF, WORD_BITS))
  }

  /** The whole words of the block below the aligned top. */
  function StackAt(base: nat): Stack
    requires base + STACK_BYTES < U64
  {
    Stack((base + 7) / 8, AlignedTop(base) / 8)
  }

  /** The masked top is 16-byte aligned and loses less than 16 bytes of the block. */
  lemma AlignedTopFits(base: nat)
    requires base + STACK_BYTES < U64
    ensures AlignedTop(base) % 16 == 0
    ensures base + STACK_BYTES - 16 < AlignedTop(base) <= base + STACK_BYTES
  {
    hide And;
    hide Pow2;
    WordSize();
    AndHighMask(base + STACK_BYTES, 4, WORD_BITS);
    RoundDownIsMultiple(base + STACK_BYTES, 16);
  }

  /** A task's stack is inside its byte block and has room for a frame. */
  lemma StackFits(base: nat)
    requires base + STACK_BYTES < U64
    ensures var s := StackAt(base);
            s.lo + FRAME < s.hi && base <= 8 * s.lo && 8 * s.hi <= base + STACK_BYTES && s.hi == AlignedTop(base) / 8
  {
    AlignedTopFits(base);
    var top, lo := AlignedTop(base), (base + 7) / 8;
    assert StackAt(base) == Stack(lo, top / 8);
    hide *;
    assert top == 16 * (top / 16);
    assert top / 8 == 2 * (top / 16);
    assert base <= 8 * lo <= base + 7;
  }

  /** What a task's registers are when it runs for the first time. */
  function Fresh(stack: Stack, entry: nat): Regs {
    Regs(stack.hi, 0, 0, 0, 0, 0, 0, entry)
  }

  // ---------------------------------------------------------------------------
  // Whole runs
  // ---------------------------------------------------------------------------

  /** Memory, the processor, and per task its stack and saved stack pointer. */
  datatype System = System(mem: seq<nat>, regs: Regs, contexts: seq<nat>, stacks: seq<Stack>, current: nat)

  datatype Action =
    /** The running task computes: any registers, any writes outside the other tasks' stacks. */
    | Compute(regs: Regs, mem: seq<nat>)
    /** The running task hands over to task `next`. */
    | Switch(next: nat)
    /** A new task with its own stack. */
    | Spawn(stack: Stack, entry: nat)

  /** The tasks' stacks do not overlap, and every task but the running one has a frame on its own. */
  ghost predicate WellFormed(s: System) {
    && |s.contexts| == |s.stacks| && s.current < |s.stacks|
    && (forall i :: 0 <= i < |s.stacks| ==> s.stacks[i].lo <= s.stacks[i].hi <= |s.mem|)
    && (forall i, j :: 0 <= i < j < |s.stacks| ==> Disjoint(s.stacks[i], s.stacks[j]))
    && (forall i :: 0 <= i < |s.stacks| && i != s.current ==>
          s.stacks[i].lo <= s.contexts[i] && s.contexts[i] + FRAME <= s.stacks[i].hi)
  }

  predicate Disjoint(a: Stack, b: Stack) {
    a.hi <= b.lo || b.hi <= a.lo
  }

  /** A task writes no other task's stack, has room on its own when it yields, and a new stack is really new. */
  ghost predicate Enabled(s: System, a: Action)
    requires WellFormed(s)
  {
    match a
    case Compute(regs, mem) =>
      && |mem| == |s.mem|
      && forall i, x :: 0 <= i < |s.stacks| && i != s.current && s.stacks[i].Holds(x) ==> mem[x] == s.mem[x]
    case Switch(next) =>
      && next < |s.stacks| && next != s.current
      && s.stacks[s.current].lo + FRAME <= s.regs.rsp <= s.stacks[s.current].hi
    case Spawn(stack, _) =>
      && stack.lo + FRAME <= stack.hi <= |s.mem|
      && forall i :: 0 <= i < |s.stacks| ==> Disjoint(s.stacks[i], stack)
  }

  ghost function Next(s: System, a: Action): System
    requires WellFormed(s) && Enabled(s, a)
  {
    match a
    case Compute(regs, mem) => s.(regs := regs, mem := mem)
    case Switch(next) =>
      var mem := Suspend(s.mem, s.regs);
      s.(mem := mem, contexts := s.contexts[s.current := s.regs.rsp - FRAME],
         regs := Resume(mem, s.contexts[next]), current := next)
    case Spawn(stack, entry) =>
      s.(mem := Suspend(s.mem, Fresh(stack, entry)),
         contexts := s.contexts + [stack.hi - FRAME], stacks := s.stacks + [stack])
  }

  lemma NextWellFormed(s: System, a: Action)
    requires WellFormed(s) && Enabled(s, a)
    ensures WellFormed(Next(s, a))
  {
  }

  /** Task t is suspended, and resuming it would load registers `r`. */
  ghost predicate Suspended(s: System, t: nat, r: Regs) {
    && WellFormed(s) && t < |s.stacks| && t != s.current
    && Resume(s.mem, s.contexts[t]) == r
  }

  /** Nothing but switching to it touches a suspended task's frame. */
  lemma StaysSuspended(s: System, a: Action, t: nat, r: Regs)
    requires Suspended(s, t, r) && Enabled(s, a) && a != Switch(t)
    ensures Suspended(Next(s, a), t, r)
  {
    NextWellFormed(s, a);
    var sp, own := s.contexts[t], s.stacks[t];
    assert forall x :: sp <= x < sp + FRAME ==> own.Holds(x);
    assert Disjoint(s.stacks[s.current], own) || Disjoint(own, s.stacks[s.current]);
    assert forall x :: sp <= x < sp + FRAME ==> Next(s, a).mem[x] == s.mem[x];
  }

  /** One run: any actions that are enabled in the states they are taken in. */
  ghost predicate IsRun(states: seq<System>, actions: seq<Action>) {
    && |states| == |actions| + 1 && WellFormed(states[0])
    && forall i :: 0 <= i < |actions| && WellFormed(states[i]) ==>
         Enabled(states[i], actions[i]) && states[i + 1] == Next(states[i], actions[i])
  }

  lemma {:induction false} RunWellFormed(states: seq<System>, actions: seq<Action>, k: nat)
    requires IsRun(states, actions) && k < |states|
    ensures WellFormed(states[k])
  {
    if k > 0 {
      RunWellFormed(states, actions, k - 1);
      NextWellFormed(states[k - 1], actions[k - 1]);
    }
  }

  lemma {:induction false} SuspendedThroughout(states: seq<System>, actions: seq<Action>, a: nat, b: nat, t: nat, r: Regs)
    requires IsRun(states, actions) && a <= b <= |actions|
    requires Suspended(states[a], t, r)
    requires forall c :: a <= c < b ==> actions[c] != Switch(t)
    ensures Suspended(states[b], t, r)
    decreases b
  {
    if a < b {
      SuspendedThroughout(states, actions, a, b - 1, t, r);
      StaysSuspended(states[b - 1], actions[b - 1], t, r);
    }
  }

  /** A task switched back in has the same stack pointer, callee-saved registers and resume address
      as when it switched out, whatever the other tasks did in between. */
  lemma ResumesAsSuspended(states: seq<System>, actions: seq<Action>, a: nat, b: nat)
    requires IsRun(states, actions) && a < b < |actions|
    requires actions[a].Switch? && actions[b] == Switch(states[a].current)
    requires forall c :: a < c < b ==> actions[c] != Switch(states[a].current)
    ensures states[b + 1].regs == states[a].regs && states[b + 1].current == states[a].current
  {
    var t, r := states[a].current, states[a].regs;
    RunWellFormed(states, actions, a);
    NextWellFormed(states[a], actions[a]);
    assert Suspended(states[a + 1], t, r);
    SuspendedThroughout(states, actions, a + 1, b, t, r);
    FrameSurvivesSwitch(states[b], t, r);
  }

  lemma FrameSurvivesSwitch(s: System, t: nat, r: Regs)
    requires Suspended(s, t, r) && Enabled(s, Switch(t))
    ensures Next(s, Switch(t)).regs == r
  {
  }

  /** A spawned task first runs at its entry, on its own stack, with the six registers zero. */
  lemma StartsFresh(states: seq<System>, actions: seq<Action>, a: nat, b: nat)
    requires IsRun(states, actions) && a < b < |actions|
    requires actions[a].Spawn? && actions[b] == Switch(|states[a].stacks|)
    requires forall c :: a < c < b ==> actions[c] != Switch(|states[a].stacks|)
    ensures states[b + 1].regs == Regs(actions[a].stack.hi, 0, 0, 0, 0, 0, 0, actions[a].entry)
  {
    var t, r := |states[a].stacks|, Fresh(actions[a].stack, actions[a].entry);
    RunWellFormed(states, actions, a);
    NextWellFormed(states[a], actions[a]);
    assert Suspended(states[a + 1], t, r);
    SuspendedThroughout(states, actions, a + 1, b, t, r);
    FrameSurvivesSwitch(states[b], t, r);
  }
}
