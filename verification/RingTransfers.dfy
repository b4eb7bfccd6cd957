/** The ring buffer does its work: whatever the items and its size, there is a run in which all of
    them are pushed and popped (services/common/ring_buffer/ring_buffer.cpp). */
module RingTransfers {
  import opened Rings
  import opened RingProtocol

  ghost predicate Path<T>(path: seq<State<T>>) {
    path != [] && forall i :: 0 <= i < |path| - 1 ==> Step(path[i], path[i + 1])
  }

  lemma PathOn<T>(a: seq<State<T>>, b: seq<State<T>>)
    requires Path(a) && Path(b) && a[|a| - 1] == b[0]
    ensures Path(a + b[1..]) && (a + b[1..])[0] == a[0] && (a + b[1..])[|a| + |b| - 2] == b[|b| - 1]
  {
    hide Step;
    var c := a + b[1..];
    forall i | 0 <= i < |c| - 1 ensures Step(c[i], c[i + 1]) {
      if |a| - 1 <= i {
        assert c[i] == b[i - (|a| - 1)] && c[i + 1] == b[i - (|a| - 1) + 1];
      }
    }
  }

  /** Both threads are outside their calls, and nobody stops them. */
  ghost predicate AtRest<T>(s: State<T>) {
    && Inv(s) && s.prod == Idle && s.cons == Idle && s.holder == Nobody && s.stop == NotStopping && !s.isStop
  }

  /** A call that need not wait and whose item fits. */
  lemma Calls<T>(s: State<T>, side: Side, x: T) returns (path: seq<State<T>>)
    requires AtRest(s) && !s.Blocked(side) && s.CanWork()
    requires side == Consumer ==> !s.tooLong(s.ring.Front()) && x == s.item
    ensures Path(path) && path[0] == s && path[|path| - 1] == s.(item := x).Move(side)
  {
    hide Inv, Ring.Put, Ring.Drop, Ring.Full, Ring.Empty, Ring.Front;
    var s1 := s.(item := x).Put(side, FirstTest);
    var s2 := s1.Put(side, Work);
    var s3 := s2.Move(side).Put(side, ToNotify);
    var s4 := s3.(holder := Thread(side)).Put(side, Notify);
    var s5 := s4.Put(side, Unlock);
    var s6 := s5.(holder := Nobody).Put(side, Idle);
    assert ThreadStep(s, s1, side) && ThreadStep(s1, s2, side) && ThreadStep(s2, s3, side);
    assert ThreadStep(s3, s4, side) && ThreadStep(s4, s5, side) && ThreadStep(s5, s6, side);
    path := [s, s1, s2, s3, s4, s5, s6];
  }

  lemma StaysAtRest<T>(s: State<T>, side: Side, x: T)
    requires AtRest(s) && !s.Blocked(side) && s.CanWork()
    ensures AtRest(s.(item := x).Move(side))
  {
    hide Ring.Holds, Ring.Put, Ring.Drop, Ring.Full, Ring.Empty, Ring.Front;
    MoveFifo(s.(item := x), side);
  }

  /** One item goes in and out. */
  lemma Transfer<T>(s: State<T>, x: T) returns (path: seq<State<T>>)
    requires AtRest(s) && s.received == s.pushed && !s.tooLong(x)
    ensures Path(path) && path[0] == s
    ensures var t := path[|path| - 1];
      AtRest(t) && t.tooLong == s.tooLong && t.received == t.pushed == s.pushed + [x]
  {
    hide Ring.Holds, Ring.Put, Ring.Drop, Ring.Full, Ring.Empty, Ring.Front;
    var n := |s.pushed|;
    s.ring.Bounds(s.pushed, n);
    s.ring.Counts(s.pushed, n);
    var into := Calls(s, Producer, x);
    StaysAtRest(s, Producer, x);
    var mid := into[|into| - 1];
    mid.ring.Counts(mid.pushed, n);
    mid.ring.Bounds(mid.pushed, n);
    mid.ring.DropHolds(mid.pushed, n);
    var out := Calls(mid, Consumer, mid.item);
    StaysAtRest(mid, Consumer, mid.item);
    PathOn(into, out);
    path := into + out[1..];
  }

  lemma {:induction false} Transfers<T>(s: State<T>, items: seq<T>) returns (path: seq<State<T>>)
    requires AtRest(s) && s.received == s.pushed && forall x :: x in items ==> !s.tooLong(x)
    ensures Path(path) && path[0] == s
    ensures path[|path| - 1].received == path[|path| - 1].pushed == s.pushed + items
    decreases |items|
  {
    hide Step, AtRest;
    if items == [] {
      path := [s];
    } else {
      var first := Transfer(s, items[0]);
      var rest := Transfers(first[|first| - 1], items[1..]);
      PathOn(first, rest);
      path := first + rest[1..];
      assert s.pushed + items == s.pushed + [items[0]] + items[1..];
    }
  }

  /** All items get through, in order. */
  lemma AllTransferred<T>(s: State<T>, items: seq<T>) returns (run: seq<State<T>>)
    requires Init(s) && forall x :: x in items ==> !s.tooLong(x)
    ensures run != [] && run[0] == s && forall k :: 0 <= k < |run| - 1 ==> Step(run[k], run[k + 1])
    ensures run[|run| - 1].pushed == run[|run| - 1].received == items
  {
    hide Step;
    InitInv(s);
    run := Transfers(s, items);
    assert [] + items == items;
  }

  /** A stop lets a thread that is asleep out, its call failed and nothing moved. */
  lemma StopReleases<T>(s: State<T>, side: Side) returns (path: seq<State<T>>)
    requires s.At(side) == Asleep && s.Blocked(side) && s.holder == Nobody && s.stop == NotStopping
    ensures Path(path) && path[0] == s
    ensures path[|path| - 1] == s.(isStop := true, stopped := s.stopped + {side}).Put(side, Idle)
  {
    hide Ring.Full, Ring.Empty;
    var s1 := s.(stop := StopLocking(side));
    var s2 := s1.(holder := Stopper, stop := StopNotify(side));
    var s3 := s2.Wake(side).(stop := StopSet(side));
    var s4 := s3.(isStop := true, stopped := s.stopped + {side}, stop := StopUnlock);
    var s5 := s4.(holder := Nobody, stop := NotStopping);
    var s6 := s5.(holder := Thread(side)).Put(side, Test);
    var s7 := s6.Put(side, StopTest);
    var s8 := s7.(holder := Nobody).Put(side, Idle);
    assert StopperStep(s, s1) && StopperStep(s1, s2) && StopperStep(s2, s3) && StopperStep(s3, s4);
    assert StopperStep(s4, s5) && ThreadStep(s5, s6, side) && ThreadStep(s6, s7, side) && ThreadStep(s7, s8, side);
    path := [s, s1, s2, s3, s4, s5, s6, s7, s8];
  }
}
