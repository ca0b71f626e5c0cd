/** The lock-free single-producer single-consumer ring shared by the keyboard and mouse drivers.

    One push or pop is several atomic steps. The two sides run their steps in any interleaving, under
    sequential consistency; the ring is shown to behave as a FIFO that holds at most 127 values. */
module Rings {
  import opened Prelude

  const BUF_SIZE := 128

  /** Where the producer is inside push; the fields are its local variables. */
  datatype Producer<T> =
    | PIdle
    | PLoadedHead(value: T, at: nat)
    | PFoundRoom(value: T, at: nat)
    | PWritten(value: T, at: nat)

  /** Where the consumer is inside pop. */
  datatype Consumer<T> =
    | CIdle
    | CLoadedTail(at: nat)
    | CFoundValue(at: nat)
    | CRead(at: nat, value: T)

  /** The shared ring, both program counters, and the history of the run: the values offered to
      completed pushes, the accepted ones among them, the number dropped, and the values popped. */
  datatype State<T> = State(
    data: seq<T>, head: nat, tail: nat, producer: Producer<T>, consumer: Consumer<T>,
    offered: seq<T>, accepted: seq<T>, drops: nat, popped: seq<T>)

  datatype Step<T> =
    | BeginPush(value: T)   // load own index
    | CheckRoom             // load the consumer's index; drop the value if full
    | WriteSlot
    | PublishHead
    | BeginPop              // load own index
    | CheckValue            // load the producer's index; give up if empty
    | ReadSlot
    | PublishTail

  function Succ(i: nat): (j: nat)
    ensures i < BUF_SIZE ==> j == if i + 1 < BUF_SIZE then i + 1 else 0
  {
    (i + 1) % BUF_SIZE
  }

  predicate Enabled<T>(s: State<T>, step: Step<T>) {
    match step
    case BeginPush(_) => s.producer.PIdle?
    case CheckRoom => s.producer.PLoadedHead?
    case WriteSlot => s.producer.PFoundRoom? && s.producer.at < |s.data|
    case PublishHead => s.producer.PWritten?
    case BeginPop => s.consumer.CIdle?
    case CheckValue => s.consumer.CLoadedTail?
    case ReadSlot => s.consumer.CFoundValue? && s.consumer.at < |s.data|
    case PublishTail => s.consumer.CRead?
  }

  function Next<T>(s: State<T>, step: Step<T>): State<T>
    requires Enabled(s, step)
  {
    match step
    case BeginPush(v) => s.(producer := PLoadedHead(v, s.head))
    case CheckRoom =>
      var p := s.producer;
      if Succ(p.at) == s.tail then s.(producer := PIdle, offered := s.offered + [p.value], drops := s.drops + 1)
      else s.(producer := PFoundRoom(p.value, p.at))
    case WriteSlot =>
      s.(data := s.data[s.producer.at := s.producer.value], producer := PWritten(s.producer.value, s.producer.at))
    case PublishHead =>
      s.(head := Succ(s.producer.at), producer := PIdle,
         offered := s.offered + [s.producer.value], accepted := s.accepted + [s.producer.value])
    case BeginPop => s.(consumer := CLoadedTail(s.tail))
    case CheckValue =>
      s.(consumer := if s.consumer.at == s.head then CIdle else CFoundValue(s.consumer.at))
    case ReadSlot => s.(consumer := CRead(s.consumer.at, s.data[s.consumer.at]))
    case PublishTail =>
      s.(tail := Succ(s.consumer.at), consumer := CIdle, popped := s.popped + [s.consumer.value])
  }

  /** How many published values have not been consumed yet. */
  function Count<T>(s: State<T>): nat {
    if s.tail <= s.head then s.head - s.tail
    else if s.tail <= s.head + BUF_SIZE then s.head + BUF_SIZE - s.tail
    else 0
  }

  /** The slots from tail to head: the abstract FIFO. */
  function Live<T>(s: State<T>): seq<T>
    requires |s.data| == BUF_SIZE
  {
    seq(Count(s), i requires 0 <= i => s.data[Slot(s.tail, i)])
  }

  /** The i-th slot after `from`, wrapping around. */
  function Slot(from: nat, i: nat): (k: nat)
    ensures k < BUF_SIZE
    ensures from < BUF_SIZE && i < BUF_SIZE ==> k == if from + i < BUF_SIZE then from + i else from + i - BUF_SIZE
  {
    (from + i) % BUF_SIZE
  }

  function Init<T>(data: seq<T>): State<T> {
    State(data, 0, 0, PIdle, CIdle, [], [], 0, [])
  }

  /** `part` can be had from `whole` by leaving out `missing` elements. */
  predicate Subsequence<T(==)>(part: seq<T>, whole: seq<T>, missing: nat)
    decreases |whole|
  {
    if whole == [] then part == [] && missing == 0
    else
      || (part != [] && part[|part| - 1] == whole[|whole| - 1]
          && Subsequence(part[..|part| - 1], whole[..|whole| - 1], missing))
      || (missing > 0 && Subsequence(part, whole[..|whole| - 1], missing - 1))
  }

  /** Local copies of the indices are current, a writer has room and a reader has a value. */
  ghost predicate Indices<T>(s: State<T>) {
    && |s.data| == BUF_SIZE && s.head < BUF_SIZE && s.tail < BUF_SIZE
    && (s.producer.PIdle? || s.producer.at == s.head)
    && (s.producer.PFoundRoom? || s.producer.PWritten? ==> Succ(s.head) != s.tail)
    && (s.producer.PWritten? ==> s.data[s.head] == s.producer.value)
    && (s.consumer.CIdle? || s.consumer.at == s.tail)
    && (s.consumer.CFoundValue? || s.consumer.CRead? ==> s.head != s.tail)
    && (s.consumer.CRead? ==> s.data[s.tail] == s.consumer.value)
  }

  /** What holds between any two atomic steps of any interleaving. */
  ghost predicate Inv<T>(s: State<T>) {
    && Indices(s)
    && s.accepted == s.popped + Live(s)
    && Subsequence(s.accepted, s.offered, s.drops)
  }

  lemma InitInv<T>(data: seq<T>)
    requires |data| == BUF_SIZE
    ensures Inv(Init(data))
  {
  }

  /** Full means 127 values, empty means none. */
  lemma CountMeaning<T>(s: State<T>)
    requires s.head < BUF_SIZE && s.tail < BUF_SIZE
    ensures Count(s) < BUF_SIZE
    ensures Succ(s.head) == s.tail <==> Count(s) == BUF_SIZE - 1
    ensures s.head == s.tail <==> Count(s) == 0
    ensures Slot(s.tail, Count(s)) == s.head
  {
  }

  /** The simulation: publishing the head appends one value to the FIFO, publishing the tail removes
      the oldest, and every other step of either side leaves the FIFO as it is. */
  lemma StepRefinesFifo<T>(s: State<T>, step: Step<T>)
    requires Inv(s) && Enabled(s, step)
    ensures |Next(s, step).data| == BUF_SIZE
    ensures match step
            case PublishHead => |Live(s)| < BUF_SIZE - 1 && Live(Next(s, step)) == Live(s) + [s.producer.value]
            case PublishTail => |Live(s)| > 0 && s.consumer.value == Live(s)[0] && Live(Next(s, step)) == Live(s)[1..]
            case _ => Live(Next(s, step)) == Live(s)
  {
    match step
    case PublishHead => PublishHeadAppends(s);
    case PublishTail => PublishTailRemoves(s);
    case WriteSlot =>
      SlotOutsideLive(s);
      CountMeaning(s);
      assert Live(Next(s, step)) == Live(s);
    case _ =>
      assert Live(Next(s, step)) == Live(s);
  }

  lemma PublishHeadAppends<T>(s: State<T>)
    requires Inv(s) && s.producer.PWritten?
    ensures |Live(s)| < BUF_SIZE - 1 && Live(Next(s, PublishHead)) == Live(s) + [s.producer.value]
  {
  }

  lemma PublishTailRemoves<T>(s: State<T>)
    requires Inv(s) && s.consumer.CRead?
    ensures |Live(s)| > 0 && s.consumer.value == Live(s)[0] && Live(Next(s, PublishTail)) == Live(s)[1..]
  {
  }

  /** The slot at head is none of the live slots while there is room. */
  lemma SlotOutsideLive<T>(s: State<T>)
    requires s.head < BUF_SIZE && s.tail < BUF_SIZE
    ensures forall i :: 0 <= i < Count(s) ==> Slot(s.tail, i) != s.head
  {
  }

  lemma IndicesNext<T>(s: State<T>, step: Step<T>)
    requires Indices(s) && Enabled(s, step)
    ensures Indices(Next(s, step))
  {
  }

  lemma HistoryNext<T>(s: State<T>, step: Step<T>)
    requires Inv(s) && Enabled(s, step)
    ensures |Next(s, step).data| == BUF_SIZE
    ensures Next(s, step).accepted == Next(s, step).popped + Live(Next(s, step))
  {
    StepRefinesFifo(s, step);
    hide Live;
    hide Subsequence;
    hide Indices;
  }

  lemma OffersNext<T>(s: State<T>, step: Step<T>)
    requires Inv(s) && Enabled(s, step)
    ensures Subsequence(Next(s, step).accepted, Next(s, step).offered, Next(s, step).drops)
  {
  }

  lemma InvNext<T>(s: State<T>, step: Step<T>)
    requires Inv(s) && Enabled(s, step)
    ensures Inv(Next(s, step))
  {
    hide Live;
    hide Subsequence;
    hide Indices;
    hide Next;
    hide Enabled;
    IndicesNext(s, step);
    HistoryNext(s, step);
    OffersNext(s, step);
  }

  /** One run: an arbitrary interleaving of enabled producer and consumer steps from the empty ring. */
  ghost predicate IsRun<T>(states: seq<State<T>>, steps: seq<Step<T>>) {
    && |states| == |steps| + 1
    && |states[0].data| == BUF_SIZE && states[0] == Init(states[0].data)
    && forall i :: 0 <= i < |steps| ==> Enabled(states[i], steps[i]) && states[i + 1] == Next(states[i], steps[i])
  }

  lemma {:induction false} RunInv<T>(states: seq<State<T>>, steps: seq<Step<T>>, k: nat)
    requires IsRun(states, steps) && k < |states|
    ensures Inv(states[k])
  {
    if k == 0 {
      InitInv(states[0].data);
    } else {
      RunInv(states, steps, k - 1);
      InvNext(states[k - 1], steps[k - 1]);
    }
  }

  /** In every reachable state of every interleaving: what was popped, followed by the live slots from
      tail to head, is what was accepted, in order; at most 127 values are live; the accepted values
      are the offered ones with the dropped ones left out. */
  lemma RingIsFifo<T>(states: seq<State<T>>, steps: seq<Step<T>>, k: nat)
    requires IsRun(states, steps) && k < |states|
    ensures |states[k].data| == BUF_SIZE
    ensures states[k].popped + Live(states[k]) == states[k].accepted
    ensures |Live(states[k])| <= 127
    ensures Subsequence(states[k].accepted, states[k].offered, states[k].drops)
    ensures states[k].drops == 0 ==> states[k].accepted == states[k].offered
  {
    RunInv(states, steps, k);
    CountMeaning(states[k]);
    if states[k].drops == 0 {
      NothingMissing(states[k].accepted, states[k].offered);
    }
  }

  lemma {:induction false} NothingMissing<T>(part: seq<T>, whole: seq<T>)
    requires Subsequence(part, whole, 0)
    ensures part == whole
    decreases |whole|
  {
    if whole != [] {
      NothingMissing(part[..|part| - 1], whole[..|whole| - 1]);
    }
  }

  /** The slot a mid-push producer is about to write is never one the consumer may read. */
  lemma WriterNeverTouchesReadersSlot<T>(states: seq<State<T>>, steps: seq<Step<T>>, k: nat)
    requires IsRun(states, steps) && k < |states| && states[k].producer.PFoundRoom?
    ensures var s := states[k];
            && (forall i :: 0 <= i < Count(s) ==> Slot(s.tail, i) != s.producer.at)
            && (s.consumer.CFoundValue? ==> s.consumer.at != s.producer.at)
  {
    RunInv(states, steps, k);
    CountMeaning(states[k]);
    SlotOutsideLive(states[k]);
  }

  /** A push drops its value exactly if the ring holds 127 values when the tail is loaded, and a pop
      comes back empty exactly if the ring holds none when the head is loaded. */
  lemma DropsAndMisses<T>(states: seq<State<T>>, steps: seq<Step<T>>, k: nat)
    requires IsRun(states, steps) && k < |steps|
    ensures |states[k].data| == BUF_SIZE
    ensures steps[k].CheckRoom? ==>
              (states[k + 1].drops == states[k].drops + 1 <==> |Live(states[k])| == 127)
              && (states[k + 1].producer.PFoundRoom? <==> |Live(states[k])| < 127)
    ensures steps[k].CheckValue? ==> (states[k + 1].consumer.CIdle? <==> Live(states[k]) == [])
  {
    RunInv(states, steps, k);
    CountMeaning(states[k]);
  }

  /** The ring in memory. `producer` and `consumer` stand for the local variables of the two sides,
      so that each atomic access of push and pop is a method of its own, equal to one Step. */
  class RingBuffer<T(0)> {
    const data: array<T>
    var head: nat
    var tail: nat
    var producer: Producer<T>
    var consumer: Consumer<T>
    ghost var offered: seq<T>
    ghost var accepted: seq<T>
    ghost var drops: nat
    ghost var popped: seq<T>

    ghost function Abs(): State<T>
      reads this, data
    {
      State(data[..], head, tail, producer, consumer, offered, accepted, drops, popped)
    }

    constructor (empty: T)
      ensures Inv(Abs()) && Abs() == Init(data[..]) && fresh(data)
    {
      data := new T[BUF_SIZE](_ => empty);
      head, tail, producer, consumer := 0, 0, PIdle, CIdle;
      offered, accepted, drops, popped := [], [], 0, [];
    }

    method LoadHeadForPush(val: T)
      requires Enabled(Abs(), BeginPush(val))
      modifies this
      ensures Abs() == Next(old(Abs()), BeginPush(val))
    {
      producer := PLoadedHead(val, head);
    }

    method LoadTailForPush() returns (full: bool)
      requires Enabled(Abs(), CheckRoom)
      modifies this
      ensures Abs() == Next(old(Abs()), CheckRoom) && full == producer.PIdle?
    {
      var next := (producer.at + 1) % BUF_SIZE;
      full := next == tail;
      if full {
        offered, drops := offered + [producer.value], drops + 1;
        producer := PIdle;
      } else {
        producer := PFoundRoom(producer.value, producer.at);
      }
    }

    method WriteData()
      requires Enabled(Abs(), WriteSlot)
      modifies this, data
      ensures Abs() == Next(old(Abs()), WriteSlot)
    {
      data[producer.at] := producer.value;
      producer := PWritten(producer.value, producer.at);
    }

    method StoreHead()
      requires Enabled(Abs(), PublishHead)
      modifies this
      ensures Abs() == Next(old(Abs()), PublishHead)
    {
      offered, accepted := offered + [producer.value], accepted + [producer.value];
      head := (producer.at + 1) % BUF_SIZE;
      producer := PIdle;
    }

    method LoadTailForPop()
      requires Enabled(Abs(), BeginPop)
      modifies this
      ensures Abs() == Next(old(Abs()), BeginPop)
    {
      consumer := CLoadedTail(tail);
    }

    method LoadHeadForPop() returns (empty: bool)
      requires Enabled(Abs(), CheckValue)
      modifies this
      ensures Abs() == Next(old(Abs()), CheckValue) && empty == consumer.CIdle?
    {
      empty := consumer.at == head;
      consumer := if empty then CIdle else CFoundValue(consumer.at);
    }

    method ReadData() returns (val: T)
      requires Enabled(Abs(), ReadSlot)
      modifies this
      ensures Abs() == Next(old(Abs()), ReadSlot) && consumer == CRead(old(consumer).at, val)
    {
      val := data[consumer.at];
      consumer := CRead(consumer.at, val);
    }

    method StoreTail()
      requires Enabled(Abs(), PublishTail)
      modifies this
      ensures Abs() == Next(old(Abs()), PublishTail)
    {
      popped := popped + [consumer.value];
      tail := (consumer.at + 1) % BUF_SIZE;
      consumer := CIdle;
    }

    /** An undisturbed push, whatever the consumer is in the middle of: the FIFO grows by the value
        unless it holds 127 already. */
    method Push(val: T)
      requires Inv(Abs()) && producer.PIdle?
      modifies this, data
      ensures Inv(Abs()) && producer.PIdle? && consumer == old(consumer)
      ensures Abs() == PushAll(old(Abs()), val)
      ensures offered == old(offered) + [val] && popped == old(popped)
      ensures drops == old(drops) + (if |old(Live(Abs()))| < BUF_SIZE - 1 then 0 else 1)
      ensures Live(Abs()) == if |old(Live(Abs()))| < BUF_SIZE - 1 then old(Live(Abs())) + [val] else old(Live(Abs()))
    {
      hide Live;
      hide Inv;
      ghost var s := Abs();
      PushSteps(s, val);
      LoadHeadForPush(val);
      var full := LoadTailForPush();
      if full {
        return;
      }
      WriteData();
      StoreHead();
    }

    /** An undisturbed pop, whatever the producer is in the middle of: the oldest value leaves the
        FIFO, or there is none. */
    method Pop() returns (r: Option<T>)
      requires Inv(Abs()) && consumer.CIdle?
      modifies this
      ensures Inv(Abs()) && consumer.CIdle? && producer == old(producer)
      ensures Abs() == PopAll(old(Abs()))
      ensures r == if old(Live(Abs())) == [] then None else Some(old(Live(Abs()))[0])
      ensures Live(Abs()) == if old(Live(Abs())) == [] then [] else old(Live(Abs()))[1..]
      ensures popped == if r.Some? then old(popped) + [r.value] else old(popped)
    {
      hide Live;
      hide Inv;
      ghost var s := Abs();
      PopSteps(s);
      LoadTailForPop();
      var empty := LoadHeadForPop();
      if empty {
        return None;
      }
      var val := ReadData();
      StoreTail();
      return Some(val);
    }
  }

  /** The state after a push that runs without interruption. */
  function PushAll<T>(s: State<T>, val: T): State<T>
    requires s.producer.PIdle? && s.head < |s.data|
  {
    var t := Next(Next(s, BeginPush(val)), CheckRoom);
    if t.producer.PIdle? then t else Next(Next(t, WriteSlot), PublishHead)
  }

  lemma PushSteps<T>(s: State<T>, val: T)
    requires Inv(s) && s.producer.PIdle?
    ensures s.head < |s.data| == BUF_SIZE && Inv(PushAll(s, val))
    ensures PushAll(s, val).drops == s.drops + (if |Live(s)| < BUF_SIZE - 1 then 0 else 1)
    ensures Live(PushAll(s, val)) == if |Live(s)| < BUF_SIZE - 1 then Live(s) + [val] else Live(s)
  {
    var a := Next(s, BeginPush(val));
    var t := Next(a, CheckRoom);
    InvNext(s, BeginPush(val));
    InvNext(a, CheckRoom);
    StepRefinesFifo(s, BeginPush(val));
    StepRefinesFifo(a, CheckRoom);
    CountMeaning(s);
    if !t.producer.PIdle? {
      var u := Next(t, WriteSlot);
      InvNext(t, WriteSlot);
      InvNext(u, PublishHead);
      StepRefinesFifo(t, WriteSlot);
      StepRefinesFifo(u, PublishHead);
    }
  }

  /** The state after a pop that runs without interruption. */
  function PopAll<T>(s: State<T>): State<T>
    requires s.consumer.CIdle? && s.tail < |s.data|
  {
    var t := Next(Next(s, BeginPop), CheckValue);
    if t.consumer.CIdle? then t else Next(Next(t, ReadSlot), PublishTail)
  }

  lemma PopSteps<T>(s: State<T>)
    requires Inv(s) && s.consumer.CIdle?
    ensures s.tail < |s.data| == BUF_SIZE && Inv(PopAll(s))
    ensures Live(PopAll(s)) == if Live(s) == [] then [] else Live(s)[1..]
    ensures PopAll(s).popped == if Live(s) == [] then s.popped else s.popped + [Live(s)[0]]
    ensures Live(s) == [] <==> s.tail == s.head
    ensures s.tail != s.head ==> Live(s)[0] == s.data[s.tail]
  {
    var a := Next(s, BeginPop);
    var t := Next(a, CheckValue);
    InvNext(s, BeginPop);
    InvNext(a, CheckValue);
    StepRefinesFifo(s, BeginPop);
    StepRefinesFifo(a, CheckValue);
    CountMeaning(s);
    if !t.consumer.CIdle? {
      var u := Next(t, ReadSlot);
      InvNext(t, ReadSlot);
      InvNext(u, PublishTail);
      StepRefinesFifo(t, ReadSlot);
      StepRefinesFifo(u, PublishTail);
    }
  }
}
