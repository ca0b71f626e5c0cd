/** The cooperative round-robin scheduler. */
module Schedulers {
  import opened Prelude

  datatype TaskState = Ready | Running | Sleeping

  datatype Task = Task(id: nat, state: TaskState, windowId: Option<nat>) {
    predicate Awake() {
      state != Sleeping
    }
  }

  // ---------------------------------------------------------------------------
  // Who runs next
  // ---------------------------------------------------------------------------

  /** The first awake task from position i on, or |ts|. */
  function FirstAwake(ts: seq<Task>, i: nat): (k: nat)
    requires i <= |ts|
    ensures i <= k <= |ts|
    ensures k < |ts| ==> ts[k].Awake()
    ensures forall j :: i <= j < k ==> !ts[j].Awake()
    decreases |ts| - i
  {
    if i == |ts| || ts[i].Awake() then i else FirstAwake(ts, i + 1)
  }

  /** The next awake task after `current`, going around; |ts| if every task sleeps. */
  function Successor(ts: seq<Task>, current: nat): (k: nat)
    requires current < |ts|
    ensures k <= |ts|
    ensures k < |ts| ==> ts[k].Awake()
  {
    var k := FirstAwake(ts, current + 1);
    if k < |ts| then k else FirstAwake(ts, 0)
  }

  datatype Table = Table(tasks: seq<Task>, current: nat) {
    /** Exactly one task is Running, and it is the current one. */
    predicate OneRunning() {
      && current < |tasks|
      && forall i :: 0 <= i < |tasks| ==> (tasks[i].state == Running <==> i == current)
    }
  }

  /** The table after one yield of the current task. */
  function Yielded(t: Table): (t': Table)
    requires t.OneRunning()
    ensures t'.OneRunning() && |t'.tasks| == |t.tasks|
  {
    var k := Successor(t.tasks, t.current);
    if k == |t.tasks| || k == t.current then t
    else Table(t.tasks[t.current := t.tasks[t.current].(state := Ready)][k := t.tasks[k].(state := Running)], k)
  }

  /** The table after n yields. */
  function After(t: Table, n: nat): (t': Table)
    requires t.OneRunning()
    ensures t'.OneRunning() && |t'.tasks| == |t.tasks|
  {
    if n == 0 then t else Yielded(After(t, n - 1))
  }

  /** The same tasks are asleep, and no task changed its identity. */
  predicate SameSleepers(a: seq<Task>, b: seq<Task>) {
    |a| == |b| && forall i :: 0 <= i < |a| ==>
      (a[i].Awake() <==> b[i].Awake()) && a[i].id == b[i].id && a[i].windowId == b[i].windowId
  }

  // ---------------------------------------------------------------------------
  // Fairness
  // ---------------------------------------------------------------------------

  /** Number of awake tasks among the first n: for an awake task, its rank. */
  function Rank(ts: seq<Task>, n: nat): (c: nat)
    requires n <= |ts|
    ensures c <= n
  {
    if n == 0 then 0 else Rank(ts, n - 1) + (if ts[n - 1].Awake() then 1 else 0)
  }

  lemma {:induction false} RankFlat(ts: seq<Task>, a: nat, b: nat)
    requires a <= b <= |ts| && forall j :: a <= j < b ==> !ts[j].Awake()
    ensures Rank(ts, b) == Rank(ts, a)
    decreases b
  {
    if a < b {
      RankFlat(ts, a, b - 1);
    }
  }

  lemma {:induction false} RankMonotone(ts: seq<Task>, a: nat, b: nat)
    requires a <= b <= |ts|
    ensures Rank(ts, a) <= Rank(ts, b)
    ensures a < b && ts[a].Awake() ==> Rank(ts, a) < Rank(ts, b)
    decreases b
  {
    if a < b {
      RankMonotone(ts, a, b - 1);
    }
  }

  lemma {:induction false} RankSame(a: seq<Task>, b: seq<Task>, n: nat)
    requires SameSleepers(a, b) && n <= |a|
    ensures Rank(a, n) == Rank(b, n)
  {
    if n > 0 {
      RankSame(a, b, n - 1);
    }
  }

  /** Awake tasks with the same rank are the same task. */
  lemma RankInjective(ts: seq<Task>, a: nat, b: nat)
    requires a < |ts| && b < |ts| && ts[a].Awake() && ts[b].Awake() && Rank(ts, a) == Rank(ts, b)
    ensures a == b
  {
    if a < b {
      RankMonotone(ts, a, b);
    } else if b < a {
      RankMonotone(ts, b, a);
    }
  }

  /** Counting up to `m`, then starting over. */
  function Around(r: nat, m: nat): nat {
    if r < m then r else r - m
  }

  /** One step to the next rank, wrapping at the number of awake tasks. */
  lemma SuccessorRank(ts: seq<Task>, current: nat)
    requires current < |ts| && ts[current].Awake()
    ensures var k, m := Successor(ts, current), Rank(ts, |ts|);
            k < |ts| && Rank(ts, current) < m && Rank(ts, k) == Around(Rank(ts, current) + 1, m)
  {
    hide Rank;
    var k := Successor(ts, current);
    RankNext(ts, current);
    RankMonotone(ts, current, |ts|);
    if k > current {
      AheadRank(ts, current, k);
    } else {
      WrappedRank(ts, current, k);
    }
  }

  lemma AheadRank(ts: seq<Task>, current: nat, k: nat)
    requires current < k < |ts| && ts[k].Awake() && forall j :: current < j < k ==> !ts[j].Awake()
    ensures Rank(ts, k) == Rank(ts, current + 1) < Rank(ts, |ts|)
  {
    hide Rank;
    RankFlat(ts, current + 1, k);
    RankMonotone(ts, k, |ts|);
  }

  lemma WrappedRank(ts: seq<Task>, current: nat, k: nat)
    requires k <= current < |ts| && forall j :: 0 <= j < k || current < j < |ts| ==> !ts[j].Awake()
    ensures Rank(ts, k) == 0 && Rank(ts, current + 1) == Rank(ts, |ts|)
  {
    hide Rank;
    RankFlat(ts, current + 1, |ts|);
    RankFlat(ts, 0, k);
    RankZero(ts);
  }

  lemma RankNext(ts: seq<Task>, i: nat)
    requires i < |ts| && ts[i].Awake()
    ensures Rank(ts, i + 1) == Rank(ts, i) + 1
  {
  }

  lemma RankZero(ts: seq<Task>)
    ensures Rank(ts, 0) == 0
  {
  }

  /** Yielding changes no task's rank and moves on by one rank. */
  lemma YieldedRank(t: Table)
    requires t.OneRunning()
    ensures SameSleepers(t.tasks, Yielded(t).tasks)
    ensures Rank(t.tasks, Yielded(t).current) == Around(Rank(t.tasks, t.current) + 1, Rank(t.tasks, |t.tasks|))
    ensures Rank(t.tasks, t.current) < Rank(t.tasks, |t.tasks|)
  {
    SuccessorRank(t.tasks, t.current);
  }

  /** In up to m yields, m being the number of awake tasks, the rank of the current task goes around once. */
  lemma {:induction false} AfterRank(t: Table, n: nat)
    requires t.OneRunning() && n <= Rank(t.tasks, |t.tasks|)
    ensures SameSleepers(t.tasks, After(t, n).tasks)
    ensures Rank(t.tasks, t.current) < Rank(t.tasks, |t.tasks|)
    ensures Rank(t.tasks, After(t, n).current) == Around(Rank(t.tasks, t.current) + n, Rank(t.tasks, |t.tasks|))
  {
    hide Rank;
    hide Yielded;
    YieldedRank(t);
    if n > 0 {
      var u := After(t, n - 1);
      assert After(t, n) == Yielded(u);
      AfterRank(t, n - 1);
      YieldedRank(u);
      RankSame(t.tasks, u.tasks, |t.tasks|);
      RankSame(t.tasks, u.tasks, u.current);
      RankSame(t.tasks, u.tasks, Yielded(u).current);
      SameSleepersTrans(t.tasks, u.tasks, Yielded(u).tasks);
      hide SameSleepers;
    }
  }

  lemma SameSleepersTrans(a: seq<Task>, b: seq<Task>, c: seq<Task>)
    requires SameSleepers(a, b) && SameSleepers(b, c)
    ensures SameSleepers(a, c)
  {
  }

  /** Among the first m yields the n-th makes task i current, and no other one does. */
  ghost predicate TurnOf(t: Table, m: nat, i: nat, n: nat)
    requires t.OneRunning()
  {
    && 1 <= n <= m && After(t, n).current == i
    && forall n' :: 1 <= n' <= m && After(t, n').current == i ==> n' == n
  }

  /** Any m consecutive yields, m being the number of awake tasks, make each awake task current exactly
      once; the one that is current comes last. */
  lemma RoundRobinIsFair(t: Table, i: nat) returns (n: nat)
    requires t.OneRunning() && i < |t.tasks| && t.tasks[i].Awake()
    ensures TurnOf(t, Rank(t.tasks, |t.tasks|), i, n)
    ensures t.current == i ==> n == Rank(t.tasks, |t.tasks|)
  {
    hide Rank;
    hide After;
    hide Yielded;
    var m, r, goal := Rank(t.tasks, |t.tasks|), Rank(t.tasks, t.current), Rank(t.tasks, i);
    RankMonotone(t.tasks, i, |t.tasks|);
    AfterRank(t, 0);
    n := if goal > r then goal - r else goal + m - r;
    AfterRank(t, n);
    assert t.tasks[After(t, n).current].Awake();
    RankInjective(t.tasks, After(t, n).current, i);
    forall n' | 1 <= n' <= m && After(t, n').current == i
      ensures n' == n
    {
      AfterRank(t, n');
    }
  }

  // ---------------------------------------------------------------------------
  // The scheduler
  // ---------------------------------------------------------------------------

  class Scheduler {
    var tasks: seq<Task>
    var current: nat
    var nextId: nat
    /** Set once the scheduler loop has registered itself. */
    var running: bool

    ghost function Now(): Table
      reads this
    {
      Table(tasks, current)
    }

    ghost predicate Valid()
      reads this
    {
      && (forall i :: 0 <= i < |tasks| ==> tasks[i].id < nextId)
      && (forall i, j :: 0 <= i < j < |tasks| ==> tasks[i].id != tasks[j].id)
      && (if running then Now().OneRunning() else forall i :: 0 <= i < |tasks| ==> tasks[i].state != Running)
    }

    constructor ()
      ensures Valid() && tasks == [] && !running
    {
      tasks, current, nextId, running := [], 0, 0, false;
    }

    method Spawn(windowId: Option<nat>) returns (id: nat)
      requires Valid()
      modifies this
      ensures Valid() && running == old(running) && current == old(current)
      ensures id == old(nextId) && tasks == old(tasks) + [Task(id, Ready, windowId)]
    {
      id := nextId;
      nextId := nextId + 1;
      tasks := tasks + [Task(id, Ready, windowId)];
    }

    /** Registers the calling context as task 0 and marks it, and only it, Running. */
    method RegisterIdle()
      requires Valid() && !running
      modifies this
      ensures Valid() && running && current == 0
      ensures tasks == [Task(old(nextId), Running, None)] + old(tasks)
      ensures forall i :: 0 <= i < |tasks| ==> (tasks[i].state == Running <==> i == current)
    {
      var id := nextId;
      nextId := nextId + 1;
      tasks := [Task(id, Running, None)] + tasks;
      current := 0;
      running := true;
    }

    /** Hands over to the next awake task in round-robin order. `switched` tells whether the context
        switch from the old to the new current task follows. */
    method YieldNow() returns (switched: bool)
      requires Valid()
      modifies this
      ensures Valid() && running == old(running) && nextId == old(nextId)
      ensures Now() == if running then Yielded(old(Now())) else old(Now())
      ensures switched == (current != old(current))
    {
      hide Successor;
      hide FirstAwake;
      hide Task.Awake;
      if !running {
        return false;
      }
      var count := |tasks|;
      if count <= 1 {
        return false;
      }
      var oldIdx := current;
      var found, nextIdx := FindAwake(oldIdx);
      if !found || nextIdx == oldIdx {
        return false;
      }
      tasks := tasks[oldIdx := tasks[oldIdx].(state := Ready)];
      tasks := tasks[nextIdx := tasks[nextIdx].(state := Running)];
      current := nextIdx;
      return true;
    }

    /** Searches the table once around, starting behind `oldIdx` and ending with it. */
    method FindAwake(oldIdx: nat) returns (found: bool, nextIdx: nat)
      requires oldIdx < |tasks|
      ensures nextIdx < |tasks|
      ensures Successor(tasks, oldIdx) == if found then nextIdx else |tasks|
    {
      var count := |tasks|;
      nextIdx := Following(oldIdx, count);
      found := false;
      var i := 0;
      while i < count
        invariant 0 <= i <= count && nextIdx < count
        invariant Passed(tasks, oldIdx, nextIdx)
        invariant i < count ==> i == if nextIdx > oldIdx then nextIdx - oldIdx - 1 else count - oldIdx - 1 + nextIdx
        invariant i == count ==> forall j :: 0 <= j < count ==> !tasks[j].Awake()
        invariant !found
      {
        if tasks[nextIdx].state == Ready || tasks[nextIdx].state == Running {
          found := true;
          break;
        }
        nextIdx := Following(nextIdx, count);
        i := i + 1;
      }
    }
  }

  /** The next position in the table, back to 0 after the last. */
  function Following(i: nat, count: nat): (k: nat)
    requires i < count
    ensures k == if i + 1 < count then i + 1 else 0
  {
    (i + 1) % count
  }

  /** Every task between `from` and `k`, going around, is asleep. */
  predicate Passed(ts: seq<Task>, from: nat, k: nat) {
    forall j :: 0 <= j < |ts| && (if k > from then from < j < k else from < j || j < k) ==> !ts[j].Awake()
  }
}
