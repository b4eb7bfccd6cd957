/** The two-thread protocol of services/common/ring_buffer/ring_buffer.cpp: one producer in Push,
    one consumer in Pop, and any number of StopPush and StopPop calls, interleaved step by step.
    Indices change under `arrayMtx_` (one atomic step each here), sleeping and notifying happen
    under `notifyMtx_` (`holder`). */
module RingProtocol {
  import opened Rings

  datatype Side = Producer | Consumer

  function Other(side: Side): Side {
    if side == Producer then Consumer else Producer
  }

  /** Where a thread is in Push (or Pop, its mirror image). */
  datatype Pc =
    | Idle       // outside
    | FirstTest  // the test before any lock
    | Locking    // about to take notifyMtx_ to wait
    | Test       // the loop test, holding notifyMtx_
    | StopTest   // it must wait: about to look at isStop_
    | Asleep     // in wait(), notifyMtx_ given up
    | Woken      // notified, about to take notifyMtx_ again
    | Work       // about to move an item under arrayMtx_
    | ToNotify   // item moved, about to take notifyMtx_ to notify
    | Notify     // about to notify_all the other side
    | Unlock     // about to give notifyMtx_ up and return

  /** Where the stopping thread is; `side` is the one whose waiters it wakes. */
  datatype StopPc = NotStopping | StopLocking(side: Side) | StopNotify(side: Side) | StopSet(side: Side) | StopUnlock

  datatype Holder = Nobody | Thread(side: Side) | Stopper

  datatype State<!T> = State(
    ring: Ring<T>, prod: Pc, cons: Pc, stop: StopPc, holder: Holder, isStop: bool,
    item: T,              // what the producer is pushing
    tooLong: T -> bool,   // which items do not fit in the consumer's buffer
    pushed: seq<T>,       // every item pushed so far
    received: seq<T>,     // every item popped so far
    stopped: set<Side>)   // the sides for which a stop has taken effect
  {
    function At(side: Side): Pc {
      if side == Producer then prod else cons
    }

    function Put(side: Side, pc: Pc): State<T> {
      if side == Producer then this.(prod := pc) else this.(cons := pc)
    }

    /** IsFull for the producer, IsEmpty for the consumer. */
    predicate Blocked(side: Side) {
      if side == Producer then ring.Full() else ring.Empty()
    }

    function Wake(side: Side): State<T> {
      if At(side) == Asleep then Put(side, Woken) else this
    }

    ghost predicate CanWork() {
      0 < ring.num == |ring.slots|
    }

    /** The section under arrayMtx_: memcpy, length, index. */
    ghost function Move(side: Side): State<T>
      requires CanWork()
    {
      if side == Producer then this.(ring := ring.Put(item), pushed := pushed + [item])
      else this.(ring := ring.Drop(), received := received + [ring.Front()])
    }

    ghost predicate Rejected(side: Side)
      requires CanWork()
    {
      side == Consumer && tooLong(ring.Front())
    }

    ghost function Queue(): seq<T> {
      if |received| <= |pushed| then pushed[|received|..] else []
    }
  }

  ghost predicate Init<T>(s: State<T>) {
    && s.ring.Holds([], 0) && s.pushed == [] && s.received == [] && s.stopped == {} && !s.isStop
    && s.prod == Idle && s.cons == Idle && s.stop == NotStopping && s.holder == Nobody
  }

  ghost predicate ThreadStep<T>(s: State<T>, t: State<T>, side: Side) {
    match s.At(side)
    case Idle => t == s.(item := t.item).Put(side, FirstTest) && (side == Consumer ==> t.item == s.item)
    case FirstTest => t == s.Put(side, if s.Blocked(side) then Locking else Work)
    case Locking => s.holder == Nobody && t == s.(holder := Thread(side)).Put(side, Test)
    case Woken => s.holder == Nobody && t == s.(holder := Thread(side)).Put(side, Test)
    case Test =>
      t == if s.Blocked(side) then s.Put(side, StopTest) else s.(holder := Nobody).Put(side, Work)
    case StopTest => t == s.(holder := Nobody).Put(side, if s.isStop then Idle else Asleep)
    case Asleep => t == s.Put(side, Woken)  // a spurious wake-up
    // an item that does not fit in the caller's buffer stays, and the call fails without notifying
    case Work =>
      s.CanWork() && t == if s.Rejected(side) then s.Put(side, Idle) else s.Move(side).Put(side, ToNotify)
    case ToNotify => s.holder == Nobody && t == s.(holder := Thread(side)).Put(side, Notify)
    case Notify => t == s.Wake(Other(side)).Put(side, Unlock)
    case Unlock => t == s.(holder := Nobody).Put(side, Idle)
  }

  ghost predicate StopperStep<T>(s: State<T>, t: State<T>) {
    match s.stop
    case NotStopping => t == s.(stop := t.stop) && t.stop.StopLocking?
    case StopLocking(side) => s.holder == Nobody && t == s.(holder := Stopper, stop := StopNotify(side))
    case StopNotify(side) => t == s.Wake(side).(stop := StopSet(side))
    case StopSet(side) => t == s.(isStop := true, stopped := s.stopped + {side}, stop := StopUnlock)
    case StopUnlock => t == s.(holder := Nobody, stop := NotStopping)
  }

  ghost predicate Step<T>(s: State<T>, t: State<T>) {
    ThreadStep(s, t, Producer) || ThreadStep(s, t, Consumer) || StopperStep(s, t)
  }

  // ---------------------------------------------------------------- the invariant

  predicate HasLock(pc: Pc) {
    pc.Test? || pc.StopTest? || pc.Notify? || pc.Unlock?
  }

  /** The other side is on its way to notify this one. */
  predicate Coming(pc: Pc) {
    pc.ToNotify? || pc.Notify?
  }

  /** Popped items are a prefix of pushed items, and the ring holds the rest. */
  ghost predicate Fifo<T>(s: State<T>) {
    && |s.received| <= |s.pushed| && s.received == s.pushed[..|s.received|]
    && s.ring.Holds(s.pushed, |s.received|)
  }

  ghost predicate SideInv<T>(s: State<T>, side: Side) {
    && (HasLock(s.At(side)) <==> s.holder == Thread(side))
    && (s.At(side) == Work ==> !s.Blocked(side))
    && (s.At(side) == Asleep || s.At(side) == StopTest ==> s.Blocked(side) || Coming(s.At(Other(side))))
    && (side in s.stopped || s.stop == StopSet(side) ==> s.At(side) != Asleep)
    && (side in s.stopped ==> s.isStop)
  }

  ghost predicate Inv<T>(s: State<T>) {
    && Fifo(s) && SideInv(s, Producer) && SideInv(s, Consumer)
    && (s.stop.StopNotify? || s.stop.StopSet? || s.stop.StopUnlock? <==> s.holder == Stopper)
  }

  lemma InitInv<T>(s: State<T>)
    requires Init(s)
    ensures Inv(s)
  {
  }

  lemma MoveFifo<T>(s: State<T>, side: Side)
    requires Fifo(s) && !s.Blocked(side)
    ensures s.CanWork() && Fifo(s.Move(side))
    ensures s.Move(side).Blocked(Other(side)) ==> s.Blocked(Other(side))
  {
    hide Ring.Holds, Ring.Full, Ring.Empty;
    s.ring.Bounds(s.pushed, |s.received|);
    s.ring.Counts(s.pushed, |s.received|);
    if side == Producer {
      s.ring.PutHolds(s.pushed, |s.received|, s.item);
    } else {
      s.ring.DropHolds(s.pushed, |s.received|);
    }
    var t := s.Move(side);
    t.ring.Counts(t.pushed, |t.received|);
    t.ring.Bounds(t.pushed, |t.received|);
  }

  lemma MoveInv<T>(s: State<T>, side: Side)
    requires Inv(s) && s.At(side) == Work
    ensures s.CanWork() && Inv(s.Move(side).Put(side, ToNotify))
  {
    hide Ring.Holds, Ring.Full, Ring.Empty, Ring.Put, Ring.Drop, Ring.Front;
    MoveFifo(s, side);
  }

  lemma ThreadInv<T>(s: State<T>, t: State<T>, side: Side)
    requires Inv(s) && ThreadStep(s, t, side)
    ensures Inv(t)
  {
    hide Ring.Holds, Ring.Full, Ring.Empty;
    if s.At(side) == Work && t != s.Put(side, Idle) {
      MoveInv(s, side);
    }
  }

  lemma StopperInv<T>(s: State<T>, t: State<T>)
    requires Inv(s) && StopperStep(s, t)
    ensures Inv(t)
  {
  }

  /** Every state of every run satisfies the invariant. */
  lemma {:induction false} RunInv<T>(run: seq<State<T>>, i: nat)
    requires i < |run| && Init(run[0])
    requires forall k :: 0 <= k < |run| - 1 ==> Step(run[k], run[k + 1])
    ensures Inv(run[i])
  {
    if i == 0 {
      InitInv(run[0]);
    } else {
      RunInv(run, i - 1);
      var s, t := run[i - 1], run[i];
      assert Step(run[i - 1], run[i - 1 + 1]);
      if ThreadStep(s, t, Producer) {
        ThreadInv(s, t, Producer);
      } else if ThreadStep(s, t, Consumer) {
        ThreadInv(s, t, Consumer);
      } else {
        StopperInv(s, t);
      }
    }
  }

  // ---------------------------------------------------------------- what it gives

  /** The bounded queue the ring implements: at most `num` items, first in, first out. */
  ghost predicate QueueStep<T>(s: State<T>, t: State<T>) {
    || (t.Queue() == s.Queue() && t.received == s.received)
    || (|s.Queue()| < s.ring.num && t.Queue() == s.Queue() + [s.item] && t.received == s.received)
    || (s.Queue() != [] && s.Queue() == [s.Queue()[0]] + t.Queue() && t.received == s.received + [s.Queue()[0]])
  }

  lemma MoveIsQueueStep<T>(s: State<T>, side: Side)
    requires Inv(s) && s.At(side) == Work
    ensures s.CanWork() && QueueStep(s, s.Move(side).Put(side, ToNotify))
  {
    hide Ring.Holds, Ring.Full, Ring.Empty, Ring.Put, Ring.Drop, Ring.Front;
    s.ring.Bounds(s.pushed, |s.received|);
    s.ring.Counts(s.pushed, |s.received|);
    if side == Consumer {
      s.ring.DropHolds(s.pushed, |s.received|);
    }
    QueueEnds(s.pushed, |s.received|, s.item);
  }

  lemma QueueEnds<T>(pushed: seq<T>, n: nat, x: T)
    requires n <= |pushed|
    ensures (pushed + [x])[n..] == pushed[n..] + [x]
    ensures n < |pushed| ==> pushed[n..] == [pushed[n]] + pushed[n + 1..]
  {
  }

  lemma StopperIsQueueStep<T>(s: State<T>, t: State<T>)
    requires StopperStep(s, t)
    ensures QueueStep(s, t)
  {
  }

  lemma ThreadIsQueueStep<T>(s: State<T>, t: State<T>, side: Side)
    requires Inv(s) && ThreadStep(s, t, side)
    ensures QueueStep(s, t)
  {
    if s.At(side) == Work && t != s.Put(side, Idle) {
      MoveIsQueueStep(s, side);
    }
  }

  /** Every step of every run is a step of the queue, or leaves it alone. */
  lemma {:induction false} RunRefinesQueue<T>(run: seq<State<T>>, i: nat)
    requires i + 1 < |run| && Init(run[0])
    requires forall k :: 0 <= k < |run| - 1 ==> Step(run[k], run[k + 1])
    ensures run[i].received <= run[i].pushed && |run[i].Queue()| <= run[i].ring.num
    ensures QueueStep(run[i], run[i + 1])
  {
    RunInv(run, i);
    var s, t := run[i], run[i + 1];
    assert Step(run[i], run[i + 1]);
    if ThreadStep(s, t, Producer) {
      ThreadIsQueueStep(s, t, Producer);
    } else if ThreadStep(s, t, Consumer) {
      ThreadIsQueueStep(s, t, Consumer);
    } else {
      StopperIsQueueStep(s, t);
    }
  }

  /** No wake-up is lost: a thread sleeps only while its side is full (or empty), or the other
      thread is on its way to notify it; and after a stop of its side it does not sleep at all. */
  lemma NoLostWakeUp<T>(run: seq<State<T>>, i: nat, side: Side)
    requires i < |run| && Init(run[0])
    requires forall k :: 0 <= k < |run| - 1 ==> Step(run[k], run[k + 1])
    ensures run[i].At(side) == Asleep ==> side !in run[i].stopped
    ensures run[i].At(side) == Asleep && !Coming(run[i].At(Other(side))) ==>
              if side == Producer then |run[i].Queue()| == run[i].ring.num else run[i].Queue() == []
  {
    RunInv(run, i);
    run[i].ring.Counts(run[i].pushed, |run[i].received|);
  }

  /** Without a stop no call fails but a Pop whose item does not fit. */
  lemma NoFailure<T>(run: seq<State<T>>, i: nat, side: Side)
    requires i + 1 < |run| && Init(run[0])
    requires forall k :: 0 <= k < |run| - 1 ==> Step(run[k], run[k + 1])
    requires !run[i].isStop && run[i].At(side) != Idle && run[i + 1].At(side) == Idle
    ensures run[i].At(side) == Unlock || (run[i].At(side) == Work && run[i].CanWork() && run[i].Rejected(side))
  {
    hide Ring.Put, Ring.Drop, Ring.Full, Ring.Empty, Ring.Front;
    assert Step(run[i], run[i + 1]);
  }

  predicate Moved(pc: Pc) {
    pc.ToNotify? || pc.Notify? || pc.Unlock?
  }

  /** How many calls of this side have returned success in the first `i` steps. */
  function Successes<T>(run: seq<State<T>>, side: Side, i: nat): nat
    requires i < |run|
  {
    if i == 0 then 0
    else Successes(run, side, i - 1) + if run[i - 1].At(side) == Unlock && run[i].At(side) == Idle then 1 else 0
  }

  /** A call returns success exactly if it has moved its item: what has been pushed (popped) are the
      items of the calls that returned success and of the one that is about to. */
  lemma {:induction false} SuccessMoves<T>(run: seq<State<T>>, side: Side, i: nat)
    requires i < |run| && Init(run[0])
    requires forall k :: 0 <= k < |run| - 1 ==> Step(run[k], run[k + 1])
    ensures (if side == Producer then |run[i].pushed| else |run[i].received|)
         == Successes(run, side, i) + if Moved(run[i].At(side)) then 1 else 0
  {
    hide Step;
    if 0 < i {
      SuccessMoves(run, side, i - 1);
      assert Step(run[i - 1], run[i - 1 + 1]);
      MovesOne(run[i - 1], run[i], side);
    }
  }

  function Amount<T>(s: State<T>, side: Side): nat {
    if side == Producer then |s.pushed| else |s.received|
  }

  lemma MovesOne<T>(s: State<T>, t: State<T>, side: Side)
    requires Step(s, t)
    ensures Amount(t, side) - (if Moved(t.At(side)) then 1 else 0)
         == Amount(s, side) - (if Moved(s.At(side)) then 1 else 0)
              + if s.At(side) == Unlock && t.At(side) == Idle then 1 else 0
  {
    hide ThreadStep, StopperStep, Amount;
    if ThreadStep(s, t, side) {
      OwnStep(s, t, side);
    } else if ThreadStep(s, t, Other(side)) {
      OtherStep(s, t, side);
    } else {
      StopStep(s, t, side);
    }
  }

  lemma OwnStep<T>(s: State<T>, t: State<T>, side: Side)
    requires ThreadStep(s, t, side)
    ensures Amount(t, side) - (if Moved(t.At(side)) then 1 else 0)
         == Amount(s, side) - (if Moved(s.At(side)) then 1 else 0)
              + if s.At(side) == Unlock && t.At(side) == Idle then 1 else 0
  {
    hide Ring.Put, Ring.Drop, Ring.Full, Ring.Empty, Ring.Front;
  }

  lemma OtherStep<T>(s: State<T>, t: State<T>, side: Side)
    requires ThreadStep(s, t, Other(side))
    ensures Amount(t, side) == Amount(s, side)
    ensures t.At(side) == s.At(side) || (s.At(side), t.At(side)) == (Asleep, Woken)
  {
    hide Ring.Put, Ring.Drop, Ring.Full, Ring.Empty, Ring.Front;
  }

  lemma StopStep<T>(s: State<T>, t: State<T>, side: Side)
    requires StopperStep(s, t)
    ensures Amount(t, side) == Amount(s, side)
    ensures t.At(side) == s.At(side) || (s.At(side), t.At(side)) == (Asleep, Woken)
  {
  }

  /** And the item a Push has moved is the one it was called with. */
  lemma MovesItem<T>(s: State<T>, t: State<T>)
    requires ThreadStep(s, t, Producer) && s.prod == Work
    ensures t.pushed == s.pushed + [s.item] && t.prod == ToNotify
  {
  }

  /** That item is the one the call was given. */
  lemma KeepsItem<T>(s: State<T>, t: State<T>)
    requires Step(s, t) && s.prod != Idle
    ensures t.item == s.item && t.tooLong == s.tooLong
  {
    hide Ring.Holds, Ring.Full, Ring.Empty, Ring.Put, Ring.Drop, Ring.Front;
  }

  /** A step other than a spurious wake-up or a new call is open to this side. */
  predicate CanStep<T>(s: State<T>, side: Side) {
    match s.At(side)
    case Idle => false
    case Asleep => false
    case Locking => s.holder == Nobody
    case Woken => s.holder == Nobody
    case ToNotify => s.holder == Nobody
    case _ => true
  }

  /** There is a step exactly then; and a sleeper may wake up for no reason. */
  lemma CanStepIff<T>(s: State<T>, side: Side)
    requires Inv(s)
    ensures (exists t :: ThreadStep(s, t, side)) <==> CanStep(s, side) || s.At(side) == Idle || s.At(side) == Asleep
  {
    hide Ring.Holds, Ring.Full, Ring.Empty, Ring.Put, Ring.Drop, Ring.Front;
    if s.At(side) == Work {
      MoveFifo(s, side);
    }
    var locked := s.(holder := Thread(side));
    var freed := s.(holder := Nobody);
    match s.At(side) {
      case Idle => assert ThreadStep(s, s.Put(side, FirstTest), side);
      case FirstTest => assert ThreadStep(s, s.Put(side, if s.Blocked(side) then Locking else Work), side);
      case Locking => assert s.holder == Nobody ==> ThreadStep(s, locked.Put(side, Test), side);
      case Woken => assert s.holder == Nobody ==> ThreadStep(s, locked.Put(side, Test), side);
      case Test =>
        assert ThreadStep(s, if s.Blocked(side) then s.Put(side, StopTest) else freed.Put(side, Work), side);
      case StopTest => assert ThreadStep(s, freed.Put(side, if s.isStop then Idle else Asleep), side);
      case Asleep => assert ThreadStep(s, s.Put(side, Woken), side);
      case Work =>
        assert ThreadStep(s, if s.Rejected(side) then s.Put(side, Idle) else s.Move(side).Put(side, ToNotify), side);
      case ToNotify => assert s.holder == Nobody ==> ThreadStep(s, locked.Put(side, Notify), side);
      case Notify => assert ThreadStep(s, s.Wake(Other(side)).Put(side, Unlock), side);
      case Unlock => assert ThreadStep(s, freed.Put(side, Idle), side);
    }
  }

  /** A stop waits for nothing but the lock. */
  lemma StopperCanStepIff<T>(s: State<T>)
    ensures (exists t :: StopperStep(s, t)) <==> (s.stop.StopLocking? ==> s.holder == Nobody)
  {
    match s.stop {
      case NotStopping => assert StopperStep(s, s.(stop := StopLocking(Producer)));
      case StopLocking(side) =>
        assert s.holder == Nobody ==> StopperStep(s, s.(holder := Stopper, stop := StopNotify(side)));
      case StopNotify(side) => assert StopperStep(s, s.Wake(side).(stop := StopSet(side)));
      case StopSet(side) =>
        assert StopperStep(s, s.(isStop := true, stopped := s.stopped + {side}, stop := StopUnlock));
      case StopUnlock => assert StopperStep(s, s.(holder := Nobody, stop := NotStopping));
    }
  }

  /** The protocol never gets stuck: while both threads are inside Push and Pop, one of them, or
      a stop in progress, can move; and they are never both asleep. */
  lemma NeverStuck<T>(run: seq<State<T>>, i: nat)
    requires i < |run| && Init(run[0])
    requires forall k :: 0 <= k < |run| - 1 ==> Step(run[k], run[k + 1])
    ensures run[i].prod != Asleep || run[i].cons != Asleep
    ensures run[i].prod != Idle && run[i].cons != Idle ==>
              CanStep(run[i], Producer) || CanStep(run[i], Consumer) || run[i].holder == Stopper
  {
    RunInv(run, i);
    run[i].ring.Counts(run[i].pushed, |run[i].received|);
  }
}
